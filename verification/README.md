# Verified model of the vehicle controller

The vehicle controller (Embedded/RC_Controller) keeps its configuration in emulated EEPROM on two flash pages, talks to
the base station over framed USB packets, to the motor controllers over CAN, to a GNSS module over a serial port that
mixes three protocols, and follows a route of way points. This project models the parts of it whose correctness is
not obvious from one function at a time, and proves what they are for.

`dafny verify dfyconfig.toml` checks everything.

| file | component |
|---|---|
| FlashLog, Recovery, RecoveryPhases, Eeprom, EepromRuns, ConfigStore | emulated EEPROM: two flash pages, power loss, recovery, the configuration record kept in it |
| Octets, Arithmetic, Rounding, Wrappers | bytes and bits, quotients, rounding, optional values |
| Division, Crc16, Crc24 | polynomial division over two elements, and the two table-driven checksums as instances of it |
| Packet | USB packet framer with its timer |
| BitField, RtcmFrame, Ephemeris, Observations | RTCM 3: bit fields, frames, messages 1019, 1002 and 1010 |
| UbxChecksum, Demux | the checksum of UBX frames; the serial port of the GNSS module: RTCM 3, UBX and NMEA interleaved |
| Can | fragmentation on the CAN bus |
| Geometry, Route, RouteTimes, RouteSteps, RepeatRoute, Autopilot | circle and segment, closest point; the ring of route points and the look-ahead; the times of a lap; iterations of the route thread; repeating routes; the autopilot's fields and thread |
| Times, PosHistory | times of day; search in the position history, the millisecond clock |
| ConfigWire, ConfigLead | the configuration in packets; its leading fields and the end of the packet |

## How the model is built

**Flash.** The two pages are arrays of halfwords changed in place by two atomic operations, program-halfword (which can
only clear bits) and erase-sector. The field `power` counts the flash operations left before power is lost, and `erases` the sectors erased, so a theorem
for every initial `power` is a theorem for a crash between any two operations; an error code from the flash driver is
treated as a power loss, after which EE_Init runs. A page stands for a map from addresses to values, and a pair of pages
for the map recovery will restore from it (`Recovery.Meaning`); what boots that are themselves cut make of it is a function of
the pages and the budgets (`RecoveryPhases.Outcome`). Slots whose data is programmed and whose address is not
are legal. The variable table is n distinct addresses followed by n zeros, as set up at start-up.

**State machines and objects.** Where the program changes fields and buffers byte by byte, the model has a class with
those fields, and each method is proved against a step function on values; the properties over whole runs are then
lemmas about that function. Frames handed to a driver or a callback are appended to a log field.

**Numbers.** Integer widths, two's complement and truncation are written out where they matter. Floating-point numbers
are reals, except in ConfigWire, where zero and the normal binary32 numbers are represented exactly. The square root
routine enters as a number whose square is its argument; distances are compared through their squares.

## Where the code and its comments differ

- Recovery marks the received page VALID before it erases the other one (`eeprom.c:182-195`, `273-286`), and two VALID
  pages are formatted on the next boot (`226-236`). This is the one point where power loss loses the data. It is not
  hidden by a precondition. `EepromRuns.Boot` says which boots reach it: those cut after one more flash operation than twice
  the number of copies still to be made. For any number of boots, each cut anywhere, `EepromRuns.Reboot` says beforehand
  whether one of them reaches it and which map comes out in the end: the one the pages stood for, or, after a loss, an empty
  one or page 1's (`RecoveryPhases.AfterWindow`). The number of copies is that of the stored variables, less the one in the
  first slot (`RecoveryPhases.CopiesAreEntries`), so that budgets other than 2n + 1 and 2n - 1 for n stored variables are
  safe (`RecoveryPhases.SafeBudgets`). Writing, as opposed to recovery, erases first and has no such point.
- The comment in `autopilot_replace_route` says that only the newer part of the route is overwritten; the loop also drops
  the newest point that is not newer. `Route.KeptCount` gives the exact number. The function returns true even when
  the point is then rejected as a duplicate (`Route.ReplaceRefines`).
- A payload of 256 bytes is sent with a length byte of zero, and an empty payload likewise; neither is received, and the
  end byte of an empty one starts a frame; a short frame behind it is lost unless at least three milliseconds lie between
  them (`Packet.DeliveredIffSendable`, `Packet.AfterEmptyFrameIff`).
- The UBX payload is stored without regard to the length of its buffer (`ublox.c:1059-1063`): the 3001st byte of a longer
  payload is stored behind it. A stream of well-formed messages stays inside, and comes out as sent, if and only if no
  payload in it is longer than 3000 bytes (`Demux.StreamDecodes`, `Demux.OversizedStops`). The decoder's methods report the
  byte that has no place as `outside` and stop before it; up to there `Demux.RunSound` describes what has come out.
- The checksum of a UBX frame makes the receiver refuse a frame in which any one covered byte was changed, except perhaps one
  of the two bytes of its length (`Demux.ChangedByteRefused`). A length made longer hands nothing over
  (`Demux.LongerLength`); one made shorter has a shorter message taken if and only if the bytes behind it happen to be its
  checksum (`Demux.ShorterLength`), which they can be (`Demux.ShorterTaken`).
- A UBX frame to be sent is put together in a buffer of 3000 bytes whatever its length (`ublox.c:1157-1197`);
  `Demux.UbxEncodeSend` reports exactly the frames that are longer. The callers in the program send short ones.
- The name in a configuration packet is copied up to its zero byte into a field of 21 (`commands.c:716`, `log.c:113`). It is
  stored inside the field if and only if one of its first 21 bytes is zero (`ConfigWire.NameInside`);
  `ConfigWire.Settings.SetMainConfig` reports any other. The leading fields are read without regard to the length of the
  packet, and depend on it alone if and only if they end inside it (`ConfigLead.LeadFromPacket`).
- The number of satellites is sent in five bits (`rtcm3_simple.c:562`) although up to 109 fit a message: what is read is
  that number modulo 32, and only so many satellites, the first ones, are decoded (`Observations.CountRead`,
  `Observations.MessageCarried`).
- A fill frame on the CAN bus checks where it starts but not where it ends (`comm_can.c:318-325`): a full one is stored
  beyond the 1024 bytes of the buffer, by up to five, if and only if it starts at 1019 to 1023. A frame shorter than its
  command takes makes the copied length negative, or has it read bytes that were not received (`Can.SoundIff`,
  `Can.LongAstray`). `Can.Receiver.ProcessFrame` reports such a frame as `astray` and stops before it is stored.
- Without repetition the look-ahead is meant to end at the route's last point, but the test (`autopilot.c:937-939`) is made
  for the end of each segment only, so that it misses a last point at which the look-ahead starts and runs on, round to
  points already passed. Nor is the count of the points left (`autopilot.c:649-653`) right when they have wrapped round the
  buffer. Short of the end of the route an iteration of the thread only drops pending points from the front, for every route
  and vehicle, if and only if two or more points are pending, or one is and the thread looks one segment ahead
  (`RouteSteps.UnendedAdvanceIff`); it surely does not end the route if and only if it counts three points left
  (`RouteSteps.StepsAdvanceIff`). With one pending an iteration can bring the whole route
  back (`RouteSteps.OnePendingStepsBack`); a replacement without a time leaves just one
  (`RouteSteps.UntimedReplaceLeavesOne`). The end of a route makes all its points pending again
  (`RouteSteps.EndLeaves`). The count is right if and only if the points have not wrapped round
  (`RouteSteps.LengthLeftIff`); when they have, a route with two points left never ends, and one with a thousand or more
  left can (`RouteSteps.WrappedLeft`). From two pending points on, the thread by itself passes the points in order until it
  ends the route (`RouteSteps.RunAdvances`). The search for the goal point wraps round in the same way unless it looks no
  further than the pending points reach or meets something between them (`RouteSteps.GoalStaysAhead`).
- `autopilot_set_active` goes back to the start of a route that has ended (`autopilot.c:437-440`), but the flag it looks at
  is never set between two operations (`AutopilotState.Autopilot.SetActive`).
- With repeated routes the thread moves the times of passed points to the next lap (`autopilot.c:839-844`), exactly when a
  segment it looks at ends before it starts (`RepeatRoute.FollowedIsStep`). Replacements compare with the times so changed
  (`RepeatRoute.LapChangesReplacement`).
- A timed replacement when nothing is pending compares its time with that of a slot that is not in use
  (`autopilot.c:296-300`; `Route.ReplaceRefines` says which, and the theorems about runs take the time found there as given).
- The search of the position history gives up at the first entry that is no nearer (`pos.c:1235-1240`). With stamps that
  never increase from newer to older it is right for every time asked for if and only if equal stamps occur only at the old
  end (`PosHistory.SafeIff`), as they do once the ring has been filled before or after the clock was set. While it still
  holds places never written behind two or more stamps of -1, it is right for exactly the times `PosHistory.StartedIff`
  gives. The clock goes back at midnight, and by a little when the pulse of the satellite receiver (`pos.c:280`) or a
  position line (`pos.c:443`) sets it. Then it is right for exactly the times `PosHistory.StepIff` gives, in closed form for
  midnight in `PosHistory.MidnightIff`; a time before the step is answered with the oldest entry since
  (`PosHistory.BeforeStep`).
- With repeated routes every added point is also written to the last slot of the ring; this changes a pending point
  exactly when the route has wrapped round (`Route.AddRefines`), which it does not before its 2000th point
  (`RepeatRoute.ActRefines`). A replacement that keeps nothing also stores the new point over the one just passed, which a
  repeating route will come to again; `RepeatRoute.ActRefines` says so through `RepeatRoute.Extended`.

## Model

| member | source | states |
|---|---|---|
| FlashLog.TornKeepsLog | Embedded/RC_Controller/eeprom.c:529-551 | Power lost between the two halfwords of a slot leaves a well-formed log that answers every read as before |
| FlashLog.AppendKeepsLog | Embedded/RC_Controller/eeprom.c:529-551 | A completed append takes exactly one more word and overrides exactly one address |
| FlashLog.HeaderKeepsLog | Embedded/RC_Controller/eeprom.c:183 | Turning a RECEIVE_DATA header into VALID_PAGE changes no slot and no reading |
| FlashLog.HeaderOnErased | Embedded/RC_Controller/eeprom.c:411 | Programming the header of an erased page gives an empty log |
| FlashLog.LookupWitness | Embedded/RC_Controller/eeprom.c:338-355 | What the backward scan returns is the data of the highest slot with that address |
| FlashLog.AndOnes | Embedded/RC_Controller/eeprom.c:529-551 | Programming erased bits stores exactly the value |
| Eeprom.StoredExactly | Embedded/RC_Controller/eeprom.c:136-136 | Both legal ways to program a halfword (over erased bits, or VALID_PAGE over RECEIVE_DATA) store the value itself although programming only clears bits |
| Eeprom.Store.constructor | Embedded/RC_Controller/conf_general.c:61-65 | The variable table is the distinct addresses followed by as many zeros |
| Eeprom.Store.ProgramHalfWord | Embedded/RC_Controller/eeprom.c:529-551 | Flash discipline, as a precondition met at every call: only an erased halfword or a RECEIVE_DATA header is programmed; with power gone nothing changes |
| Eeprom.Store.EraseSector | Embedded/RC_Controller/eeprom.c:661-671 | One atomic step sets a page to all ones, or nothing when power is gone |
| Eeprom.Store.EraseSectorIfNotEmpty | Embedded/RC_Controller/eeprom.c:661-671 | A page is erased only if some byte of it is programmed, and on success is fully erased |
| Eeprom.Store.FindValidPage | Embedded/RC_Controller/eeprom.c:435-495 | For reading the VALID page, page 0 if both are; for writing the page that receives, else the VALID one, page 1 if both are; none if and only if neither is VALID |
| Eeprom.Store.ReadVariable | Embedded/RC_Controller/eeprom.c:314-361 | The value returned is the newest in the valid page, and not-found means no slot carries the address |
| Eeprom.Store.ProgramSlot | Embedded/RC_Controller/eeprom.c:533-548 | Data halfword then address halfword: complete, torn after the first, or untouched |
| Eeprom.Store.VerifyPageFullWriteVariable | Embedded/RC_Controller/eeprom.c:507-555 | Appends at the first blank word of the page selected for writing, or reports PAGE_FULL exactly when there is none, changing nothing |
| Eeprom.Store.CopyVariable | Embedded/RC_Controller/eeprom.c:165-179 | One round of a copy loop appends the newest value of a variable, or passes over one that is not found; zero table entries are never found; cut, it leaves slot 1 as the number of flash operations spent says |
| Eeprom.Store.ResumeCopy | Embedded/RC_Controller/eeprom.c:159-181 | The copy loop of EE_Init ends with everything copied, or stops in a state that still stands for the same map, its slot 1 given by the number of flash operations spent |
| Eeprom.Store.ResumeTransfer | Embedded/RC_Controller/eeprom.c:156-196 | Resumed transfer ends with the new page VALID and the old one erased, holding exactly the map the interrupted transfer stood for, after two flash operations for each copy and two more |
| Eeprom.Store.FinishTransfer | Embedded/RC_Controller/eeprom.c:183-195 | Marking the receiving page VALID and then erasing the other one: complete, or cut before either |
| Eeprom.Store.Format | Embedded/RC_Controller/eeprom.c:397-424 | Formatting gives one VALID empty page and one erased page, or stops in the state its number of flash operations gives |
| Eeprom.Store.Init | Embedded/RC_Controller/eeprom.c:99-302 | Recovery restores, from every recoverable state, exactly the map that state stands for, and leaves a steady state untouched; VALID/VALID and illegal header pairs are formatted to the empty map on page 0; a complete transfer takes two flash operations for each copy and two more, erases one page and leaves the receiving one valid; a page that is alone keeps every slot; cut, it leaves the phase its number of flash operations gives, the map kept unless it falls between marking the new page VALID and erasing the old one |
| Eeprom.Store.EraseOther | Embedded/RC_Controller/eeprom.c:115-124 | With one page VALID the other is erased, if it is not already |
| Eeprom.Store.InitTransfer | Embedded/RC_Controller/eeprom.c:156-196 | The two transfer branches of EE_Init keep the map; PAGE_FULL happens exactly when the copies do not fit and also keeps it |
| Eeprom.Store.CompleteHandover | Embedded/RC_Controller/eeprom.c:197-213 | With the source already erased, the received page becomes the valid one with its map unchanged |
| Eeprom.Store.TransferCopy | Embedded/RC_Controller/eeprom.c:617-636 | The copy loop of EE_PageTransfer copies every variable but the one just written |
| Eeprom.Store.BeginTransfer | Embedded/RC_Controller/eeprom.c:600-614 | Marking the other page RECEIVE_DATA keeps the old map; its first slot switches to the new one |
| Eeprom.Store.PageTransfer | Embedded/RC_Controller/eeprom.c:568-655 | Compaction of a full page gives the old map with the new write, or is cut in a state that stands for the old or the new map |
| Eeprom.Store.EndTransfer | Embedded/RC_Controller/eeprom.c:638-654 | Erasing the old page before marking the new one VALID never loses the map |
| Eeprom.Store.WriteVariable | Embedded/RC_Controller/eeprom.c:373-389 | Crash atomicity: a write completes as old[a := d], or power loss after any number of flash operations inside it, transfer included, leaves a state that stands for the old map or for old[a := d]. With a blank word left in the valid page a complete write is two flash operations that add one slot with the data and the address there, a cut one leaves the page untouched or the slot torn, and the other page stays as it was; a page is erased only when the valid one was full |
| Eeprom.WrittenGrows | Embedded/RC_Controller/eeprom.c:373-389 | A complete write takes one more word of the valid page and erases nothing, or erases one page, after which each variable takes at most one word |
| Recovery.SteadyAppend | Embedded/RC_Controller/eeprom.c:529-551 | An append to a steady page has exactly two crash outcomes: the old map or the new |
| Recovery.BlankReceives | Embedded/RC_Controller/eeprom.c:600-614 | A fresh receiving page stands for the old map until its first slot is complete |
| Recovery.ReceiveCopy | Embedded/RC_Controller/eeprom.c:165-179 | Copying a variable other than the one in slot 1 changes the meaning at no flash operation |
| Recovery.CopiesAgree | Embedded/RC_Controller/eeprom.c:159-181 | Apart from the variable in slot 1 a receiving page never contradicts its source |
| Recovery.CopyAppends | Embedded/RC_Controller/eeprom.c:165-179 | One more copied variable keeps the transfer invariant |
| Recovery.CopiedAll | Embedded/RC_Controller/eeprom.c:183-190 | When every variable has been passed the receiving page alone is the map |
| Recovery.WindowState | Embedded/RC_Controller/eeprom.c:183-190 | Between marking the new page VALID and erasing the old one flash is in the one state recovery does not restore |
| Recovery.SteadyRead | Embedded/RC_Controller/eeprom.c:314-361 | In a steady state the page selected for reading answers as the map does, not-found included |
| Recovery.FormatsIff | Embedded/RC_Controller/eeprom.c:111-302 | The pairs of headers for which both pages are formatted, by their values |
| RecoveryPhases.StoppedPhase | Embedded/RC_Controller/eeprom.c:156-196 | After an interruption as many copies are left as before, or one fewer if slot 1 was blank and has been named, whichever of its two halfwords power was lost behind |
| RecoveryPhases.AllCopied | Embedded/RC_Controller/eeprom.c:156-190 | Behind the last round the receiving page has room for and holds exactly the map the transfer stood for, and marking it VALID opens the window |
| RecoveryPhases.CopiesAreEntries | Embedded/RC_Controller/eeprom.c:159-181 | The copies still to be made are the entries of the map, less the one in slot 1 |
| RecoveryPhases.LosesIff | Embedded/RC_Controller/eeprom.c:156-196 | Once slot 1 is not blank a row of boots loses the map if and only if some budget is one more than two for each copy and none before it is more |
| RecoveryPhases.KeptUnlessLost | Embedded/RC_Controller/eeprom.c:99-302 | A row of boots none of which is cut at that point, torn copies included, comes to the map the pages stood for |
| RecoveryPhases.SafeBudgets | Embedded/RC_Controller/eeprom.c:99-302 | For a map of n entries no row of boots loses anything if no budget is 2n + 1 or 2n - 1 |
| RecoveryPhases.SafeWhenFull | Embedded/RC_Controller/eeprom.c:99-302 | The same with the number of variables once all are stored |
| EepromRuns.Boot | Embedded/RC_Controller/eeprom.c:99-302 | One boot with any amount of power loses the map if and only if it is cut exactly in that window |
| EepromRuns.BootOutcome | Embedded/RC_Controller/eeprom.c:99-302 | Any boot, cut anywhere, takes its budget off what the state comes to and off what is lost |
| EepromRuns.Boots | Embedded/RC_Controller/eeprom.c:99-302 | Any number of recoveries cut anywhere: whether one loses the map, and the map a complete boot then leaves, are those settled by the state they start from |
| EepromRuns.Reboot | Embedded/RC_Controller/eeprom.c:99-302 | After k boots cut anywhere and a complete one, given room for (k+1)n copies, the map is the one settled beforehand; it is restored unless a boot was cut at exactly the point described |
| EepromRuns.Perform | Embedded/RC_Controller/eeprom.c:373-389 | A write cut by power loss stands for the old map or old[a := d]; the boots that follow, cut anywhere, leave it or lose it exactly as that state settles, never with careful budgets or ample power; with ample power it erases a page only if the valid one was full, and uses one more word otherwise |
| EepromRuns.Run | Embedded/RC_Controller/eeprom.c:373-389 | Any run of writes with power losses and boots cut anywhere leaves what a plain map holds after the committed writes if no boot is cut at that point, which is known from the states the writes left; what is left otherwise is known too. When no write is cut, m writes of n variables erase at most one page and one more for every 4096 - n of them |
| EepromRuns.WornMore | Embedded/RC_Controller/eeprom.c:373-389 | Between two erases lie at least as many writes as a page has words beyond one for each variable: one more write keeps this |
| EepromRuns.ReadBack | Embedded/RC_Controller/eeprom.c:314-361 | After any run a read returns what the plain map holds, not-found included, or, after a loss, what the run is known to leave |
| EepromRuns.LoseAll | Embedded/RC_Controller/eeprom.c:226-236 | What the window costs: a boot cut there, then boots cut anywhere and a complete one leave the empty map, or page 1's exactly if the first of them with a budget other than 0 and 2 has budget 1 |
| ConfigStore.ConfVars | Embedded/RC_Controller/conf_general.c:61-65 | The addresses set up at start-up are distinct, neither 0 nor 0xFFFF, and few enough |
| ConfigStore.StoreMainConfig | Embedded/RC_Controller/conf_general.c:367-399 | The store loop leaves the first k halfwords new and the rest old, k being all of them unless power was lost |
| ConfigStore.ReadMainConf | Embedded/RC_Controller/conf_general.c:309-330 | The record loaded is the stored one, or, exactly when a variable is missing, the default one, and is sanitised |
| ConfigStore.StoreThenRead | Embedded/RC_Controller/conf_general.c:309-399 | Store then load gives back the same bytes, sanitised |
| ConfigStore.StoreCutThenRead | Embedded/RC_Controller/conf_general.c:309-399 | A store cut anywhere, then boots cut anywhere, then a load give a prefix of the new record followed by the old one, sanitised, unless a boot is cut at that point, which the state the store left settles; no boot is if its budget is not 2n + 1 or 2n - 1 for n variables |
| ConfigStore.StoredMix | Embedded/RC_Controller/conf_general.c:385-399 | The first k halfwords of one record over another read as the mixed record |
| Division.DivideConcat | Embedded/RC_Controller/crc.c:51-58 | Dividing a message in two parts is dividing the second from the remainder of the first |
| Division.TableStep | Embedded/RC_Controller/crc.c:55-56 | A whole byte of bitwise division is one table lookup and one shift |
| Division.DivideLinear | Embedded/RC_Controller/crc.c:51-58 | Polynomial division is linear over XOR |
| Division.BurstRemainder | Embedded/RC_Controller/crc.c:51-58 | A nonzero burst no longer than the generator has a nonzero remainder |
| Division.AcceptedIsCodeword | Embedded/RC_Controller/packet.c:146-149 | A message followed by its checksum is accepted exactly when the whole divides to zero |
| Division.BurstRejected | Embedded/RC_Controller/packet.c:146-149 | Two messages with right checksums never differ only in a burst no longer than the generator |
| Crc16.Crc16TabIsDivision | Embedded/RC_Controller/crc.c:21-49 | Every entry of the table is eight steps of division by 0x1021 of its index |
| Crc16.Checksum16IsRemainder | Embedded/RC_Controller/crc.c:51-58 | The table-driven checksum is the remainder of bitwise division by 0x1021 |
| Crc16.ComputeCrc16 | Embedded/RC_Controller/crc.c:51-58 | The loop over the buffer computes that remainder |
| Crc16.Checksum16Detects | Embedded/RC_Controller/crc.c:51-58 | No error burst of up to 16 bits in message and checksum goes undetected |
| Crc16.Checksum16Linear | Embedded/RC_Controller/crc.c:51-58 | The checksum of an error pattern is what the error adds to the checksum of any equally long message |
| Crc24.TblCrc24qIsDivision | Embedded/RC_Controller/rtcm3_simple.c:1036-1069 | Every entry of the table is eight steps of division by 0x1864CFB of its index |
| Crc24.Checksum24IsRemainder | Embedded/RC_Controller/rtcm3_simple.c:1071-1080 | The table-driven checksum is the remainder of bitwise division by 0x1864CFB |
| Crc24.Crc24q | Embedded/RC_Controller/rtcm3_simple.c:1071-1080 | The loop over the buffer computes that remainder |
| Crc24.Checksum24Detects | Embedded/RC_Controller/rtcm3_simple.c:1071-1080 | No error burst of up to 24 bits in message and checksum goes undetected |
| Crc24.Checksum24Linear | Embedded/RC_Controller/rtcm3_simple.c:1071-1080 | The checksum is linear over XOR for equally long messages |
| Packet.TicksPatient | Embedded/RC_Controller/packet.c:76-83 | Exactly as many ticks as the timeout leave the state alone, one more returns it to the start |
| Packet.SilenceResets | Embedded/RC_Controller/packet.c:76-83 | Three ticks without a byte always return the receiver to state 0 |
| Packet.HeaderRead | Embedded/RC_Controller/packet.c:89-124 | Both forms of the header lead to the payload state with the right length |
| Packet.PayloadRead | Embedded/RC_Controller/packet.c:126-132 | The payload bytes are collected whole, with up to two ticks before each |
| Packet.TrailerRead | Embedded/RC_Controller/packet.c:134-159 | A payload is handed over exactly when the checksum and the end byte are those the sender computes |
| Packet.FrameRead | Embedded/RC_Controller/packet.c:89-159 | A frame with any two checksum bytes delivers its payload once if they match and nothing otherwise |
| Packet.DeliversAll | Embedded/RC_Controller/packet.c:44-159 | Every sequence of sendable payloads is delivered exactly once and in order, under every timing with at most two ticks inside a frame |
| Packet.DeliveredIffSendable | Embedded/RC_Controller/packet.c:44-123 | A payload comes through if and only if its length is in 1..1024 and not 256 |
| Packet.BurstDropped | Embedded/RC_Controller/packet.c:146-159 | A frame whose payload and checksum are hit by a burst of up to 16 bits delivers nothing |
| Packet.RunSound | Embedded/RC_Controller/packet.c:89-165 | On any byte stream with any timing, whatever is delivered was just received as a whole frame with a right checksum |
| Packet.EmptyFrameMisread | Embedded/RC_Controller/packet.c:51-123 | The frame of an empty payload leaves the receiver waiting for a length |
| Packet.EmptyFrameSwallowsNext | Embedded/RC_Controller/packet.c:51-123 | A short frame that promptly follows an empty one is lost |
| Packet.AfterEmptyFrameIff | Embedded/RC_Controller/packet.c:51-123 | A short frame behind an empty one is delivered if and only if at least three ticks come before it |
| Packet.Handler.ProcessByte | Embedded/RC_Controller/packet.c:89-165 | The handler does what the state machine does, for every byte in every state, and writes only inside its receive buffer |
| Packet.Handler.TimerFunc | Embedded/RC_Controller/packet.c:76-83 | One millisecond tick of a handler |
| Packet.Handler.SendPacket | Embedded/RC_Controller/packet.c:44-71 | The bytes sent are the frame of the payload; none when it is too long |
| BitField.SetBitU | Embedded/RC_Controller/rtcm3_simple.c:975-990 | The field holds the low bits of the value and every other bit of the buffer is untouched |
| BitField.SetBits | Embedded/RC_Controller/rtcm3_simple.c:992-1001 | The field holds the sign and the low bits of the two's complement, every other bit is untouched |
| BitField.GetBitU | Embedded/RC_Controller/rtcm3_simple.c:1010-1019 | Reads the number the bits of the field stand for |
| BitField.GetBits | Embedded/RC_Controller/rtcm3_simple.c:1021-1030 | Reads the two's complement number the bits of the field stand for |
| BitField.UnsignedRoundTrip | Embedded/RC_Controller/rtcm3_simple.c:975-1019 | An unsigned field reads back as written if and only if the value was in range |
| BitField.SignedRoundTrip | Embedded/RC_Controller/rtcm3_simple.c:992-1030 | A signed field reads back as written if and only if the value was in range |
| BitField.ForceSign | Embedded/RC_Controller/rtcm3_simple.c:992-1001 | Forcing the sign bit of the word gives the signed field |
| BitField.Set38Bits | Embedded/RC_Controller/rtcm3_simple.c:1003-1008 | A 38-bit field is written as a signed upper part and six lower bits |
| BitField.GetBits38 | Embedded/RC_Controller/rtcm3_simple.c:1032-1034 | Reads the number of a 38-bit field |
| BitField.RoundTrip38 | Embedded/RC_Controller/rtcm3_simple.c:1003-1034 | A number written as a 38-bit field reads back rounded down if and only if its upper part fits |
| RtcmFrame.ItemRoundTrip | Embedded/RC_Controller/rtcm3_simple.c:975-1030 | One field of either sign reads back as written if and only if in range |
| RtcmFrame.ParsePack | Embedded/RC_Controller/rtcm3_simple.c:975-1030 | Reading a message of any layout gives every value back if and only if each was in the range of its field |
| RtcmFrame.FieldRead | Embedded/RC_Controller/rtcm3_simple.c:975-1030 | A field is read as the bits written for it stand for, whatever the other fields hold |
| RtcmFrame.PutU | Embedded/RC_Controller/rtcm3_simple.c:975-990 | Writes the next unsigned field of a message behind the ones already written |
| RtcmFrame.PutS | Embedded/RC_Controller/rtcm3_simple.c:992-1001 | Writes the next signed field of a message behind the ones already written |
| RtcmFrame.GetU | Embedded/RC_Controller/rtcm3_simple.c:1010-1019 | Reads an unsigned field of a message at its place in the layout |
| RtcmFrame.GetS | Embedded/RC_Controller/rtcm3_simple.c:1021-1030 | Reads a signed field of a message at its place in the layout |
| RtcmFrame.PutHead | Embedded/RC_Controller/rtcm3_simple.c:474-477 | The 24 header bits, the length still zero |
| RtcmFrame.Pad | Embedded/RC_Controller/rtcm3_simple.c:601-604 | Zero bits up to a whole number of bytes |
| RtcmFrame.EncodeEnd | Embedded/RC_Controller/rtcm3_simple.c:598-621 | Padding, length and checksum make the written message a frame, or 0 exactly when it is too long |
| RtcmFrame.FrameTaken | Embedded/RC_Controller/rtcm3_simple.c:147-177 | Every byte of a frame is taken and the last completes it |
| RtcmFrame.InputSound | Embedded/RC_Controller/rtcm3_simple.c:147-177 | Whatever is handed over is a frame made of the bytes held and the new one, its number returned |
| RtcmFrame.FeedFrame | Embedded/RC_Controller/rtcm3_simple.c:147-177 | A frame fed byte by byte is handed over once, with its number |
| RtcmFrame.BurstRefused | Embedded/RC_Controller/rtcm3_simple.c:170-173 | A frame hit by a burst of up to 24 bits that spares its length is refused when complete |
| RtcmFrame.Receiver.InputData | Embedded/RC_Controller/rtcm3_simple.c:147-177 | The receiver does what the state machine does and in no state writes outside its buffer |
| Ephemeris.Encode1019 | Embedded/RC_Controller/rtcm3_simple.c:468-537 | The bytes produced are the frame of the 31 fields of the ephemeris |
| Ephemeris.Decode1019 | Embedded/RC_Controller/rtcm3_simple.c:920-968 | Nothing happens on a message too short; otherwise every field is replaced by what its bits stand for |
| Ephemeris.ScalesArePowers | Embedded/RC_Controller/rtcm3_simple.c:40-52 | The scale factors are the powers of two they are named for, to twelve digits |
| Ephemeris.RoundTrip1019 | Embedded/RC_Controller/rtcm3_simple.c:468-968 | The encoder's frame fed to the receiver passes the checksum, is handed over once as 1019, and decodes to the ephemeris with each value rounded to its step, if each is in range |
| Ephemeris.FieldRestored | Embedded/RC_Controller/rtcm3_simple.c:468-968 | Each of the 30 fields is restored if and only if its own value is in the range of its field, whatever the others are |
| Ephemeris.WeekRestored | Embedded/RC_Controller/rtcm3_simple.c:956-958 | The full week is recovered if and only if it is in 1249..2272 |
| Ephemeris.RestoredNear | Embedded/RC_Controller/rtcm3_simple.c:480-500 | Every real of the ephemeris is restored to within half a step of its field |
| Ephemeris.RestoredStable | Embedded/RC_Controller/rtcm3_simple.c:479-533 | What was received is sent again as exactly the same fields |
| Observations.EncodeHead | Embedded/RC_Controller/rtcm3_simple.c:539-567 | The header of an observation message, with its time rounded to milliseconds |
| Observations.PutGps | Embedded/RC_Controller/rtcm3_simple.c:266-305 | The seven fields of a GPS satellite |
| Observations.PutGlo | Embedded/RC_Controller/rtcm3_simple.c:345-388 | The eight fields of a GLONASS satellite |
| Observations.Encode | Embedded/RC_Controller/rtcm3_simple.c:256-393 | For any number of satellites the bytes produced are the frame of header and satellites in order, or 0 exactly when too long |
| Observations.DecodeHead | Embedded/RC_Controller/rtcm3_simple.c:569-596 | Reads back the header's values; at most 31 satellites |
| Observations.GetGps | Embedded/RC_Controller/rtcm3_simple.c:629-651 | Reads one GPS satellite; an invalid phase leaves range and phase as they were |
| Observations.GetGlo | Embedded/RC_Controller/rtcm3_simple.c:826-851 | Reads one GLONASS satellite; an invalid phase leaves range and phase as they were |
| Observations.Decode | Embedded/RC_Controller/rtcm3_simple.c:623-858 | Exactly the satellites announced and wholly inside the message are replaced, each by the values at its place |
| Observations.FrameFed | Embedded/RC_Controller/rtcm3_simple.c:256-393 | The frame is handed over once, as 1002 or 1010 |
| Observations.HeaderRead | Embedded/RC_Controller/rtcm3_simple.c:539-596 | The header's values are read as they were sent |
| Observations.ObsRead | Embedded/RC_Controller/rtcm3_simple.c:256-858 | The values of every satellite are read as they were sent, wherever it stands in the message |
| Observations.FieldsInRange | Embedded/RC_Controller/rtcm3_simple.c:266-305 | All fields fit if and only if the small ones, the ambiguity and the phase do: the pseudorange field then fits by itself |
| Observations.PrInRange | Embedded/RC_Controller/rtcm3_simple.c:280-282 | The pseudorange field always fits, and the rebuilt range is within 0.01 m of the given one less 299792458 m for each second the time was rounded, or of 0 if that was given |
| Observations.Corrected | Embedded/RC_Controller/rtcm3_simple.c:272-278 | Range and phase are corrected by the rounded part of the time, at the speed of light and at the carrier frequency (1575.42 MHz, or 1602 MHz and 562.5 kHz for each channel) |
| Observations.PprFits | Embedded/RC_Controller/rtcm3_simple.c:284-286 | The phase is in range of the 32-bit word it is written from, for every observation |
| Observations.CpPrIs | Embedded/RC_Controller/rtcm3_simple.c:971-973 | The phase less the range is sent as it is if it lies within 1500 cycles, and otherwise modulo 3000 cycles with the sign C gives the remainder |
| Observations.PhaseNear | Embedded/RC_Controller/rtcm3_simple.c:284-286 | The rebuilt phase agrees with the corrected one to a quarter of a millimetre, up to multiples of 3000 cycles |
| Observations.PhaseExact | Embedded/RC_Controller/rtcm3_simple.c:284-286 | A phase within 262 m of its range always fits and is rebuilt to a quarter of a millimetre, with no multiple of 3000 cycles between |
| Observations.ObservationCarried | Embedded/RC_Controller/rtcm3_simple.c:256-858 | Each satellite of the frame stands there with its integers equal, its range within 0.01 m of the given one corrected by the speed of light, and its phase, up to multiples of 3000 cycles, within a quarter of a millimetre of the given one corrected by its carrier frequency, if its fields fit |
| Observations.CountRead | Embedded/RC_Controller/rtcm3_simple.c:539-596 | The number of satellites read is the number sent modulo 32, so it survives if and only if there are fewer than 32 |
| Observations.HeaderCarried | Embedded/RC_Controller/rtcm3_simple.c:539-596 | Station and time in milliseconds are those sent if and only if they fit their fields, and the flag always is, whatever the number of satellites |
| Observations.MessageCarried | Embedded/RC_Controller/rtcm3_simple.c:256-858 | From the encoder's table to the one decoding leaves, with the frame in the receive buffer: the time handed over within half a millisecond, the number modulo 32, each of so many satellites carried as above, corrected by the difference of the two times, if its fields fit, all others untouched |
| Demux.StreamDecodes | Embedded/RC_Controller/ublox.c:1004-1107 | Any concatenation of well-formed RTCM frames, UBX frames and NMEA lines comes out as exactly those messages in order, with nothing stored outside the UBX buffer, if and only if no UBX payload is longer than it |
| Demux.StreamParsed | Embedded/RC_Controller/ublox.c:1016-1105 | The three parsers by themselves, buffers apart, take every such stream apart again |
| Demux.RunSound | Embedded/RC_Controller/ublox.c:1004-1107 | On any byte stream the messages handed over (before a byte is stored outside) are whole messages of the stream, checksums included, in order and without overlap |
| Demux.StreamRoom | Embedded/RC_Controller/ublox.c:1059-1063 | A stream of well-formed messages never stores a byte outside the UBX buffer if and only if each UBX payload is at most 3000 bytes |
| Demux.OversizedStops | Embedded/RC_Controller/ublox.c:1059-1063 | A frame with a longer payload is taken up to its 3000th payload byte, and the next one has no place |
| UbxChecksum.FletcherIs | Embedded/RC_Controller/ublox.c:1157-1197 | The two running sums over n bytes, each modulo 256, are the plain sum of the bytes and the sum of (n - i) times byte i, modulo 256 |
| UbxChecksum.ChangeNoticed | Embedded/RC_Controller/ublox.c:1022-1075 | Changing any one byte changes the plain sum modulo 256 |
| Demux.UbxByte | Embedded/RC_Controller/ublox.c:1022-1075 | The UBX parser takes every byte of a UBX frame, whose checksum is the plain and the weighted sum of its covered bytes modulo 256, and completes at the last |
| Demux.UbxExtended | Embedded/RC_Controller/ublox.c:1022-1075 | Whatever completes the UBX parser is a UBX frame, its last two bytes the plain and the weighted sum of the bytes covered, modulo 256 |
| Demux.ChangedByteRefused | Embedded/RC_Controller/ublox.c:1022-1075 | A frame with any one byte of its class, id, payload or checksum changed hands no UBX or RTCM message over, whatever its length |
| Demux.ShorterLength | Embedded/RC_Controller/ublox.c:1022-1075 | A frame whose length has been made shorter has the shorter message taken if and only if the bytes behind it are the checksum of that |
| Demux.LongerLength | Embedded/RC_Controller/ublox.c:1022-1075 | A frame whose length has been made longer hands no UBX or RTCM message over |
| Demux.ShorterTaken | Embedded/RC_Controller/ublox.c:1022-1075 | A frame of two payload bytes that, with its length made zero, begins with the frame of the empty payload |
| Demux.StepSound | Embedded/RC_Controller/ublox.c:1016-1105 | One byte keeps the bytes held by at most one parser, hands them over as one message, or drops them |
| Demux.Decoder.UbxInput | Embedded/RC_Controller/ublox.c:1022-1080 | The UBX fields, sums and buffer follow the unfinished frame through every state, a message is handed over exactly when the last two bytes are the plain and the weighted sum, and a payload byte without a place in the buffer is reported |
| Demux.Decoder.LineInput | Embedded/RC_Controller/ublox.c:1084-1105 | A line is handed over at its newline; at 256 bytes the buffer starts again |
| Demux.Decoder.ProcessByte | Embedded/RC_Controller/ublox.c:1016-1105 | The decoder does what the state machine of three interleaved parsers does, for every byte in every state, except that it stops at a byte the program stores outside its buffer |
| Demux.Decoder.ProcessWaiting | Embedded/RC_Controller/ublox.c:1004-1106 | All bytes waiting in the serial port's ring buffer are processed in order, across its wrap-around, or all before the first one the program stores outside the UBX buffer |
| Demux.Decoder.constructor | Embedded/RC_Controller/ublox.c:1111-1117 | After a reset no parser holds anything |
| Demux.UbxEncodeSend | Embedded/RC_Controller/ublox.c:1157-1197 | The bytes sent are a UBX frame, its last two bytes the plain and the weighted sum of class, id, length and payload modulo 256, and the receiver gets from them exactly one message with the same class, id and payload; exactly the frames longer than the buffer are reported instead |
| Demux.PollFrame | Embedded/RC_Controller/ublox.c:1157-1197 | The poll of class 1, id 7 is B5 62 01 07 00 00 08 19 |
| Geometry.CircleIsQuadratic | Embedded/RC_Controller/utils.c:612-617 | The points of the segment on the circle are the roots of the quadratic |
| Geometry.Roots | Embedded/RC_Controller/utils.c:619-651 | The roots, from a square root of the determinant |
| Geometry.BoxIsSegment | Embedded/RC_Controller/utils.c:630-631 | The bounding-box test is exactly t in [0, 1] |
| Geometry.CircleLineInt | Embedded/RC_Controller/utils.c:587-668 | Above the length threshold the number returned is the number of points of the segment on the circle, and the points reported are those, the first further along |
| Geometry.FirstIsFollowed | Embedded/RC_Controller/autopilot.c:860-868 | Of two intersections the first is nearer the segment's end, so the program follows it |
| Geometry.FirstHit | Embedded/RC_Controller/utils.c:636-664 | The first intersection reported is the one furthest along |
| Geometry.ClosestPointLine | Embedded/RC_Controller/utils.c:689-718 | The point returned is on the segment and no point of the segment is closer |
| Geometry.LeastAt | Embedded/RC_Controller/utils.c:701-713 | The clamped quotient minimises the squared distance |
| Route.AddRefines | Embedded/RC_Controller/autopilot.c:1127-1162 | An accepted point is appended if and only if there is room and, with repeated routes, the copy in the last slot falls on no other pending point |
| Route.AddTaken | Embedded/RC_Controller/autopilot.c:1127-1132 | A point is taken if and only if it is not a first one, none has been received as first before, or it lies at least 0.0001 from the last such; otherwise nothing changes |
| Route.AddTwice | Embedded/RC_Controller/autopilot.c:1127-1132 | The same first point offered twice leaves what offering it once leaves, and is refused the second time |
| Route.PreviousPoint | Embedded/RC_Controller/autopilot.c:1143-1159 | Looking one point back from the first pending point finds the first point added, or the end of a repeating route, and later additions leave it there |
| Route.PopRefines | Embedded/RC_Controller/autopilot.c:225-240 | Removing the last point removes the last pending point, if any |
| Route.RewindKeeps | Embedded/RC_Controller/autopilot.c:276-289 | The walk back ends and leaves a prefix of the pending points, across the wrap-around |
| Route.KeptCount | Embedded/RC_Controller/autopilot.c:284-288 | Of a sorted route the points not newer than the new one stay, all but the newest of them; the comment in the source (only the newer part goes) holds if and only if there is none |
| Route.ReplaceRefines | Embedded/RC_Controller/autopilot.c:272-302 | After a replacement the pending points are the kept ones followed by the new one, unless that is too old or nothing was kept and it lies less than 0.0001 from the last point received as a first one; with repeating routes as long as they have not wrapped round |
| Route.ReplacePrevious | Embedded/RC_Controller/autopilot.c:291-300 | A replacement that leaves only the new point makes it the point before itself; otherwise the point before the first pending one stays |
| Route.ReplaceSorted | Embedded/RC_Controller/autopilot.c:261-307 | A time-sorted pending route stays time-sorted, across the wrap-around, and no kept point changes |
| Route.RestartRefines | Embedded/RC_Controller/autopilot.c:466-475 | Going back to the start of the buffer makes all passed points pending again, or, when the points have wrapped round, drops those before its end |
| Route.OpRefines | Embedded/RC_Controller/autopilot.c:225-307 | Each operation does to the ring what it does to a list of pending points and the slots passed before them, wherever the points lie, a timed replacement with nothing pending included; with repeating routes as long as they have not wrapped round |
| Route.RunRefines | Embedded/RC_Controller/autopilot.c:225-307 | Any run of adds, pops, clears, replacements, advances and resets (the end of the route included) leaves the ring holding what the list holds; with repeating routes, any run in which the pending points do not wrap round |
| Route.LookAheadSafe | Embedded/RC_Controller/autopilot.c:755-788 | Every index the look-ahead forms is inside the buffer and is the next one round the cycle |
| Route.LookAheadDistinct | Embedded/RC_Controller/autopilot.c:755-788 | Different look-ahead steps visit different points |
| Route.AheadIs | Embedded/RC_Controller/autopilot.c:754-758 | The look-ahead visits segment k if and only if it is asked to and the route has a segment k |
| RouteSteps.StepsAdvanceIff | Embedded/RC_Controller/autopilot.c:638-1080 | Over all routes and vehicles, an iteration without repetition keeps following and only drops pending points if and only if the program counts at least three left (for a radius above zero) |
| RouteSteps.IterationEnds | Embedded/RC_Controller/autopilot.c:638-1080 | An iteration ends the route if and only if it does not repeat, fewer than three points are counted and the vehicle is nearer to the last one than the radius; the start is reached within one and a half times the radius |
| RouteSteps.UnendedAdvanceIff | Embedded/RC_Controller/autopilot.c:638-989 | Over all routes and vehicles not at the end of the route, an iteration without repetition only drops pending points if and only if two are pending, or one is and one segment is looked at |
| RouteSteps.RunAdvances | Embedded/RC_Controller/autopilot.c:638-1080 | Over any run of iterations without repetition, from two pending points on, they are passed in order, at least two staying pending, until the route ends with everything pending and the autopilot off for good |
| RouteSteps.EndLeaves | Embedded/RC_Controller/autopilot.c:981-1080 | The end of the route leaves the autopilot off and all points from the start of the buffer pending, which is an advance if and only if none had been passed or they have wrapped round |
| RouteSteps.LengthLeftIff | Embedded/RC_Controller/autopilot.c:640-653 | The count of points left is right if and only if they do not wrap round the buffer |
| RouteSteps.WrappedLeft | Embedded/RC_Controller/autopilot.c:640-653 | When they do, the program takes the end to be near exactly when about as many are left as have been passed, at least a thousand, and never when it is near |
| RouteSteps.OnePendingStepsBack | Embedded/RC_Controller/autopilot.c:638-989 | With one point pending and two segments looked at, an iteration away from the route's end can make all points already passed pending again, for a route of every length from three and every radius |
| RouteSteps.NonePendingStartsOver | Embedded/RC_Controller/autopilot.c:638-989 | With nothing pending an iteration can start the route over with the vehicle away from its last point |
| RouteSteps.UntimedReplaceLeavesOne | Embedded/RC_Controller/autopilot.c:272-302 | A replacement without a time leaves exactly one point pending on a route in progress |
| RouteSteps.GoalStaysAhead | Embedded/RC_Controller/autopilot.c:798-886 | The search for the goal point stays between pending points if and only if it looks no further than they reach or meets something between them |
| RouteSteps.PursuedClosest | Embedded/RC_Controller/autopilot.c:886-979 | With nothing at the look-ahead radius the point followed is no further from the vehicle than any point of the segments looked at |
| RouteSteps.PursuedGoal | Embedded/RC_Controller/autopilot.c:798-886 | On a repeating route the point followed lies at the look-ahead radius if any segment looked at is met, on no earlier segment than that |
| RouteSteps.PursuedEnd | Embedded/RC_Controller/autopilot.c:845-886 | Without repetition the last point is followed when the segment ending there is looked at and met |
| RouteTimes.UnchangedIff | Embedded/RC_Controller/autopilot.c:837-844 | Looking ahead changes no time if and only if no segment looked at ends before it starts (by less than half a day) |
| RouteTimes.StampedPlaces | Embedded/RC_Controller/autopilot.c:837-844 | Looking ahead changes nothing but times |
| RouteTimes.LaterIs | Embedded/RC_Controller/autopilot.c:837-844 | A time moved to the next lap stays in the day, the lap time later modulo 24 hours; any other stays as it is |
| RepeatRoute.ActRefines | Embedded/RC_Controller/autopilot.c:225-307 | On a repeating route each operation, cyclic thread steps with the times of the next lap and restarts included, does to the points in use what it does to a list, and the first considered index stays at or before the last |
| RepeatRoute.FollowedIsStep | Embedded/RC_Controller/autopilot.c:638-989 | What an iteration does to a repeating route is such a step or restart, and it changes no time if and only if no segment looked at ends before it starts |
| RepeatRoute.RunRefinesLoop | Embedded/RC_Controller/autopilot.c:225-307 | Any run of these operations with fewer than 2000 points leaves the ring holding what the list holds |
| RepeatRoute.ClearedRun | Embedded/RC_Controller/autopilot.c:1164-1174 | In particular any run from a cleared route |
| RepeatRoute.LapChangesReplacement | Embedded/RC_Controller/autopilot.c:276-300 | The times of the next lap change what a replacement leaves |
| AutopilotState.Autopilot.AddPoint | Embedded/RC_Controller/autopilot.c:1127-1162 | The array and flags after add_point are those of the ring; false is returned exactly for a first point less than 0.0001 from the last one received as first |
| AutopilotState.Autopilot.RemoveLastPoint | Embedded/RC_Controller/autopilot.c:225-240 | autopilot_remove_last_point on the ring |
| AutopilotState.Autopilot.ClearRoute | Embedded/RC_Controller/autopilot.c:1164-1174 | clear_route on the ring, with the start time, the synchronisation flag and the goal point reset |
| AutopilotState.Autopilot.ReplaceRoute | Embedded/RC_Controller/autopilot.c:261-307 | Terminates, and does to the ring what the specification does, active or not |
| AutopilotState.Autopilot.Iterate | Embedded/RC_Controller/autopilot.c:627-1082 | One iteration of the thread: the point followed, the first considered point, the times of a lap, the count of points left and the end of the route, which resets the state |
| AutopilotState.Autopilot.Move | Embedded/RC_Controller/autopilot.c:655-989 | The first considered point moves to the closest segment ahead, or to the start of the route while it has not been reached, and the end of the route is noticed |
| AutopilotState.Autopilot.FollowRoute | Embedded/RC_Controller/autopilot.c:798-979 | The point followed is the last point when the segment ending there is met, else the goal point, else the point of the segments ahead closest to the vehicle |
| AutopilotState.Autopilot.AddLap | Embedded/RC_Controller/autopilot.c:837-844 | The end of a segment that ends before it starts gets the time of the next lap |
| AutopilotState.Autopilot.EndRoute | Embedded/RC_Controller/autopilot.c:1075-1080 | At the end of the route the autopilot is off and its state reset |
| AutopilotState.Autopilot.SetActive | Embedded/RC_Controller/autopilot.c:418-448 | Switching on or off leaves the route alone, because the flag for a route that has ended is never set between two operations |
| AutopilotState.Autopilot.ResetState | Embedded/RC_Controller/autopilot.c:466-475 | reset_state on the ring: the first considered point is the start of the buffer |
| AutopilotState.Autopilot.ClosestSegment | Embedded/RC_Controller/autopilot.c:897-944 | The loop returns the first of the closest segments among those it may visit |
| AutopilotState.Autopilot.GoalPoint | Embedded/RC_Controller/autopilot.c:798-886 | The goal point is the point of the route ahead at the look-ahead radius that is furthest along, or there is none; the route's last point is taken exactly when the segment ending there is met; with repetition the segments looked at get their times |
| AutopilotState.Autopilot.SegmentHit | Embedded/RC_Controller/autopilot.c:845-868 | Of the intersections with one segment the one furthest along is used |
| Route.GoalMore | Embedded/RC_Controller/autopilot.c:849-875 | One more segment moves the goal exactly when it is met |
| Can.FillsTile | Embedded/RC_Controller/comm_can.c:562-597 | The pieces of the fill frames follow one another and make up the whole buffer |
| Can.RunFills | Embedded/RC_Controller/comm_can.c:313-325 | Whatever the order and number of the fragments, a place once filled holds its byte |
| Can.Reassembles | Embedded/RC_Controller/comm_can.c:313-347 | Fragments in any order, repeated, mixed with other traffic, and the closing frame hand over exactly the buffer |
| Can.ShortDelivers | Embedded/RC_Controller/comm_can.c:350-355 | Up to six bytes arrive whole in one frame |
| Can.SentReceived | Embedded/RC_Controller/comm_can.c:551-609 | Every buffer of up to 1024 bytes sent is received |
| Can.SenderKnown | Embedded/RC_Controller/comm_can.c:551-609 | After the frames of any buffer the last sender is the one they were sent under |
| Can.LastFrame | Embedded/RC_Controller/comm_can.c:551-609 | The last frame is the closing or the short one, by its number, and begins with the sender's id and the flag |
| Can.SendBuffer | Embedded/RC_Controller/comm_can.c:551-609 | The two loops produce exactly the specified frames, under the sender's id: the main id and 128, modulo 256 |
| Can.FillFrame | Embedded/RC_Controller/comm_can.c:563-597 | One fragment of either loop |
| Can.SoundIff | Embedded/RC_Controller/comm_can.c:313-356 | The frames accepted are exactly those that carry the bytes their command reads and store nothing outside the receive buffer |
| Can.LongAstray | Embedded/RC_Controller/comm_can.c:318-325 | A frame that carries what its command reads is stored outside only by a long fill from the last five positions, by at most five bytes; a full one from each of them |
| Can.Receiver.ProcessFrame | Embedded/RC_Controller/comm_can.c:313-356 | The receiver's buffer, last sender (that named by a closing or short frame) and the packets handed over after each frame; exactly the frames that go astray are reported instead |
| PosHistory.SaveNewest | Embedded/RC_Controller/pos.c:1206-1218 | Saving makes the point the newest of the last 99 and drops the oldest, at every ring position |
| PosHistory.EarlyExitIsSafe | Embedded/RC_Controller/pos.c:1220-1246 | If only the oldest stamps are repeated, the early exit stops exactly at the newest of the nearest entries |
| PosHistory.SafeIff | Embedded/RC_Controller/pos.c:1220-1246 | With stamps that never increase towards the past, the search is right for every time if and only if equal stamps occur only at the old end |
| PosHistory.TieMisleads | Embedded/RC_Controller/pos.c:1235-1240 | Two equal stamps with an older one behind them make the search miss that one |
| PosHistory.CrossesMidnight | Embedded/RC_Controller/pos.c:1220-1246 | After the clock has gone back to zero the search passes to older entries only from a single new one, and then exactly if the next is nearer |
| PosHistory.MidnightIff | Embedded/RC_Controller/pos.c:1220-1246 | After the clock has gone back to zero the search is right for exactly the times no nearer to the oldest entry than to the newest, or, from a single new entry, nearer to the next |
| PosHistory.CrossesStep | Embedded/RC_Controller/pos.c:1220-1246 | The search passes the step exactly for times nearer to the newest entry before it than to the oldest since, and nearer to that than to the next |
| PosHistory.StepIff | Embedded/RC_Controller/pos.c:1220-1246 | After the clock has been set back the search is right if and only if the time asked for leads it past the step or some entry since is as near as every one before |
| PosHistory.BeforeStep | Embedded/RC_Controller/pos.c:1220-1246 | A time before the step is answered with the time of the oldest entry since, whatever was saved before |
| PosHistory.History.Save | Embedded/RC_Controller/pos.c:1206-1218 | The array and pointer after a save |
| PosHistory.StartedIff | Embedded/RC_Controller/pos.c:1220-1246 | While places never written lie behind two or more stamps of -1, the search for a time of day is right if and only if some entry saved since the clock was set is no later than twice that time |
| PosHistory.History.ClosestPointToTime | Embedded/RC_Controller/pos.c:1220-1246 | Returns the entry where the search stops: a nearest one when only the oldest stamps are repeated, and after midnight, a step back and the start exactly under the conditions of MidnightIff, StepIff and StartedIff |
| PosHistory.ElapsedIsTrue | Embedded/RC_Controller/pos.c:877-878 | Two timer readings less than one turn apart give the true number of ticks |
| PosHistory.ElapseConserves | Embedded/RC_Controller/pos.c:952-967 | One update conserves ticks, modulo a day |
| PosHistory.ClockConserves | Embedded/RC_Controller/pos.c:952-967 | Over any run the clock and its remainder hold the sum of all ticks, modulo a day |
| PosHistory.ClockIsTrue | Embedded/RC_Controller/pos.c:877-967 | Read often enough, the clock shows exactly the true time |
| PosHistory.Timekeeper.Read | Embedded/RC_Controller/pos.c:952-967 | One update of the clock's fields |
| ConfigWire.FrexpIsExact | Embedded/RC_Controller/buffer.c:88-89 | Significand and exponent are exact and normalised |
| ConfigWire.WordIsPattern | Embedded/RC_Controller/buffer.c:87-104 | What is sent for zero and normal numbers is the binary32 interchange format (section 3.4 of IEEE 754-2008) |
| ConfigWire.FloatRoundTrip | Embedded/RC_Controller/buffer.c:87-194 | Zero and every normal binary32 number survive the wire exactly |
| ConfigWire.SignedInverse | Embedded/RC_Controller/buffer.c:106-127 | A signed word reads back as written if and only if it was in range |
| ConfigWire.FieldsRead | Embedded/RC_Controller/commands.c:675-752 | Reading the leading fields one after another gives back what was written one after another |
| ConfigWire.ReadFits | Embedded/RC_Controller/buffer.c:106-194 | A field that lies inside the data is read as one that can be sent again, exactly unless it is a number that is not normal or a name of more than 20 bytes |
| ConfigWire.GroupSizes | Embedded/RC_Controller/commands.c:760-803 | The sizes written out for the optional groups are those of their fields |
| ConfigWire.GroupsRead | Embedded/RC_Controller/commands.c:752-803 | A group is read if and only if it and all before it lie within the packet, from its fixed place; the counts of sensors and control loops are zero otherwise |
| ConfigWire.NoStaleBytes | Embedded/RC_Controller/commands.c:752-803 | Nothing behind the end of the packet reaches the groups |
| ConfigWire.NameInside | Embedded/RC_Controller/commands.c:716-717 | The name of a packet is stored inside its field if and only if one of its first 21 bytes is zero; the other leading fields lie inside the receive buffer |
| ConfigLead.LeadFromPacket | Embedded/RC_Controller/commands.c:675-752 | The leading fields depend on the packet alone if and only if they end inside it |
| ConfigWire.WireRoundTrip | Embedded/RC_Controller/commands.c:675-953 | What CMD_GET_MAIN_CONFIG sends CMD_SET_MAIN_CONFIG reads back, every transmitted field of it |
| ConfigWire.SanitisedIsSafe | Embedded/RC_Controller/conf_general.c:337-359 | After sanitising there are at most four of each and only loops of known type are enabled |
| ConfigWire.SanitisedItems | Embedded/RC_Controller/conf_general.c:337-359 | Item by item: an actuator count above 4 becomes 0 and no other actuator item changes; more than 4 sensors or loops zero their group; otherwise only the enabled items of the loops can change, and one is 0 afterwards if and only if it was 0, was above 1, or its loop's type is above 4 |
| ConfigWire.SanitisedSendable | Embedded/RC_Controller/conf_general.c:337-359 | A configuration that can be sent still can once it has been sanitised |
| ConfigWire.SafeUnchanged | Embedded/RC_Controller/conf_general.c:337-359 | Sanitising leaves a configuration alone if and only if it is safe |
| ConfigWire.SafeRoundTrip | Embedded/RC_Controller/commands.c:675-953 | A safe configuration sent and stored is the same configuration |
| ConfigWire.Append16 | Embedded/RC_Controller/buffer.c:29-37 | Two bytes, high byte first, nothing else changed |
| ConfigWire.Append32 | Embedded/RC_Controller/buffer.c:39-51 | Four bytes, high byte first, nothing else changed |
| ConfigWire.AppendFloat32Auto | Embedded/RC_Controller/buffer.c:87-104 | The interchange format of the number, nothing else changed |
| ConfigWire.GetField | Embedded/RC_Controller/buffer.c:106-194 | Reads one field and advances the index; a name too long for its field is reported |
| ConfigWire.Settings.GetMainConfig | Embedded/RC_Controller/commands.c:840-953 | The bytes sent are the payload of the configuration |
| ConfigWire.Settings.ReadTailInto | Embedded/RC_Controller/commands.c:752-803 | The running index decides for each optional group |
| ConfigWire.Settings.SetMainConfig | Embedded/RC_Controller/commands.c:675-804 | The configuration afterwards is the packet's, sanitised item by item, unless the name is one the program stores outside its field, which is reported |

## Left out

- The web server and user interface, ChibiOS threads, locks, interrupts and drivers: only the data they hand over.
- Partial erases and torn halfwords, and going on after a flash error without EE_Init.
- EE_WriteVariable in a state that is not steady, which only EE_Init is meant to be run in.
- Packet.Handler.TimerFunc: state_control_update is not part of this model.
- Demux.Decoder.ProcessByte: what happens after a byte has been stored outside the UBX buffer, where the decoder's own fields lie.
- Demux.UbxEncodeSend: the same for a frame longer than the buffer.
- ConfigWire.Settings.SetMainConfig: the same for a name longer than its field; the fields before the name, which the program has taken by then, are not stored in the model either.
- The decoding of UBX messages and NMEA lines: a UBX payload and a line are opaque bytes. A line is taken up to its newline although the program passes it on as a string that ends at its first zero byte.
- RTCM messages 1004, 1005, 1006 and 1012, which use the same field accessors; the week number kept for later observation headers.
- RTCM 1002 and 1010 have one function each in the program; here one model has both as cases.
- Observations.Encode: the callbacks and the second frequency, which the message does not carry.
- Rounding errors of floating-point arithmetic.
- AutopilotState.Autopilot.Iterate: the speed and steering computed from the point followed, the attributes of the closest point, and what happens to the motor at the end of the route; the radius is a parameter. Times are not limited to 32 bits.
- Route.RunRefines: repeating routes of 2000 points and more whose pending points wrap round; there the extra copy in the last slot can overwrite a pending point, exactly as Route.AddRefines says.
- autopilot_sync_point, and the motor and servo output.
- Can.Receiver.ProcessFrame: what a frame that goes astray does, and all other CAN commands.
- PosHistory.SafeIff: histories with more than one step back among their last 99 entries, or with a step back and places never written.
- PosHistory: the position fields are carried, the corrections computed from them are not.
- ConfigWire: the leading fields, which the program reads and writes one by one, are a list in wire order here; CMD_GET_MAIN_CONFIG_DEFAULT (which leaves room for the current name instead of the default one, `commands.c:884-885`), the acknowledgement and what is restarted after a new configuration.
- ConfigWire.FloatRoundTrip: denormal numbers, infinities and not-a-number.
- ConfigStore.ReadMainConf: the values of the default configuration and the sanitising of the record, which are parameters; ConfigWire models sanitising on the configuration's fields.
