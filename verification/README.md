# TraitsGW in Dafny

TraitsGW polls a serial sensor on a weekly plan, forwards what the sensor answers to a server, and
keeps what the server did not take in a log that a second process works off. This project models
the parts of it that keep state over long runs, and proves what they are for:

- **CRC-16/MODBUS** (`CrcTheory`, `CrcTables`, `Crc16`, `CrcValues`, `Sonbest`): the two 256-entry tables and the
  byte loop compute the bit-serial CRC with the reflected polynomial 0xA001 and the initial value
  0xFFFF (MODBUS over Serial Line Specification and Implementation Guide V1.02, section 6.2.2), for
  messages of any length; which errors that CRC detects; and that the frame of `send_cmd` is the
  only one that checks.
- **Ring buffer** (`Words`, `RingBuffer`, `RingSteps`): as a class over an array it is a bounded FIFO,
  across the end of the array and the wrap of the 32-bit indices; taken apart into the steps that
  two unlocked threads can interleave, every interleaving is still that FIFO, and neither thread ever
  waits for the other.
- **Gateway threads** (`Gateway`, `HexText`): the serial producer and the forwarding consumer around
  the buffer, with their mutex and condition variable: nothing is lost but what does not fit, and
  whatever is whole gets reported; and the text a packet is reported as.
- **Timers** (`Calendar`, `Scheduler`, `WeeklyPlan`, `FixedPeriod`, `MixedMasks`, `Timers`,
  `TimerList`): the queue of relative delays refines a scheduler with absolute due times and fires
  every plan exactly at its occurrences, for ever; and what goes wrong when its timers do not share
  their mask.
- **Record log** (`PacketCodec`, `PacketFileMgr`, `Rexmit`, `LogFile`, `RexmitSystem`, `RexmitRuns`,
  `RexmitLoop`, `LateMark`, `WorkOff`, `LateWork`): files as bytes, marked in place, appended to by one process and scanned, posted from,
  marked and deleted by another that may be killed at any point; what midnight does to a mark; and
  when everything left behind can still be delivered.

Functions are the specifications; the classes and methods follow the C++ step by step and are proved
equal to them; the theorems are about the functions, or about all runs of a transition system. A run
is a sequence of states with the steps between them, started in an initial state, in any order that
the steps' guards allow. `IsRun` says so in each of the three systems.

## What the code does that its comments do not say

- `put_today_record` writes one mark byte before the payload (`packetfilemgr/packetfilemgr.cpp:69`)
  and both readers skip two (`packetfilemgr/packetfilemgr.cpp:121`, `:152`). The number skipped is a
  parameter of the model: the round trip is exact for one, and two loses the first byte of every
  payload (`PacketFileMgr.RoundTrip`). With two, a past file that holds an unsent payload of a
  single byte is never finished, and while it stays no record of today is read either
  (`WorkOff.BlockedStarvesToday`). `Rexmit.DrainPast` says exactly which records block it, and
  `WorkOff.WorkedOffIffNothingBlocks` that nothing else ever stands in the way for good. For a
  retransmitter that is not killed just one thing more can: a record in hand from the day before whose
  mark will hit a record of today (`LateWork.WorksOutExactly`).
- A record of today that is acknowledged just before midnight is marked just after it, in the file of
  the new day. `LateMark.LateMarkExact` proves that this loses no record there and then if and only if
  the byte is not one that a reader looks at: there is no such file, or the byte lies behind its end,
  already is the sent mark, or belongs to a payload and is skipped, as the first one is with two.
  `LateMark.MidnightLosesARecord` gives a run in which it does. Behind the end the harm falls on the
  record put next, which ends up on one line with the stray mark. A rescan still comes to it if and only
  if the line buffer happens to end just behind that mark, that is, if whole chunks of 1023 bytes lead
  there from the end of the file (`LateMark.StrayMarkTakesNextPut`, `LateMark.StrayMarkHidesNextPut`). So
  a late mark loses no record, then or at the next put, if and only if it hits none, and is in step like
  that if it is stray (`LateMark.LateMarkAndPutExact`). Being in step only helps today's rescan: the line
  is then longer than the buffer, and `get_record` does not get past it once the day is over
  (`LateMark.StrayMarkOverlong`). All theorems about runs of the log are for runs whose late marks, if
  any, change no byte (`RexmitSystem.NoHarm`); midnight itself may fall anywhere.
- A mark that is lost, to a crash after the acknowledgement or to a today's file that cannot be opened
  or locked when the mark is due, lets its record be posted again. `RexmitSystem.DuplicatesPaid` counts
  that.
- `recognize_packet` looks for a header and returns nine whether or not it finds one
  (`devs/sonbest-SD5110B.cpp:95`), so packets are nine-byte blocks of the stream from its start, and
  are the sensor's frames only while the stream consists of whole frames (`Gateway.PacketsAreBlocks`,
  `Gateway.FramesReported`).
- `start` and `internal_onTimer` arm the event for the front of the list even if the list is empty
  (`timerlist/timerlist.cpp:104`, `timerlist/timerlist.cpp:45`), although the caller's comment says that
  `start` just returns then (`gw/serial.cpp:157`) and the callback's that the list is not empty. What
  the front of an empty list is cannot be said; the model leaves what the event is armed with open.
- With an empty day mask a weekly timer still fires, once a week on the weekday it was set
  (`Calendar.EmptyMaskDelay`); the exactness theorems are for masks with a day in them.
- Pushing a fired timer to the back is right for one shared weekly mask, always, and for one shared
  constant period exactly when the first delays lie within a period (`FixedPeriod.PunctualIffSpreadFits`).
- The timers of one list need not share a mask: a heartbeat's plans are added to the prepared list
  without clearing it (`gw/gw.cpp:635-654`), and that thread is created before the list is started
  (`gw/main.cpp:148`, `gw/serial.cpp:157`). A firing then keeps everybody's due time if and only if
  nobody is due before the head (`MixedMasks.PunctualIffHeadIsFirst`), and a list of repeating timers
  keeps time for ever if and only if their turns, taken in the order of the list, never go back
  (`MixedMasks.KeepsTimeIffTurnsInOrder`), which the kinds and the first delays decide. Two plans with
  different masks can lose an occurrence for ever (`MixedMasks.OccurrenceLost`,
  `TimerList.LoadTwoLists`). The plain ten-second timer that a build with `TRAITS_TEST` (`gw/defines.h:9`)
  arms in place of the first plan list never keeps time beside a heartbeat's weekly ones
  (`MixedMasks.ShortPeriodNeverKeepsTime`).
- `strptime` reads seconds up to 61. A plan for a leap second fires a day late, in the first seconds of
  the next day (`Calendar.LeapSecondLands`).

## Assumptions

The clock is ideal: a day is 86400 seconds and a callback takes no time. The barriers of the ring
buffer are sequential consistency. A write or a read of a line is one step, and the calendar does not
run backwards. An acknowledgement is a post that returned a response; whether a server kept a post
whose response was lost is not visible to either process. The payloads of the log are not empty, hold no
newline and no zero byte, and fit a line of `PACKET_LINE_SIZE`, as the JSON texts that are put do.

## Model

| member | source | states |
|---|---|---|
| CrcTables.TableEntry | crc/crc16.cpp:4-45 | each of the 256 pairs of table entries is the 16-bit register after eight bit-serial shifts of its index |
| Crc16.Update | crc/crc16.cpp:55-57 | the loop body, two table look-ups, has the effect of absorbing one byte and shifting eight times |
| Crc16.CRC16 | crc/crc16.cpp:47-61 | the result is the bit-serial CRC of the first usDataLen bytes, for every message |
| Crc16.CrcIsRun | crc/crc16.cpp:53-58 | a byte at a time or a bit at a time, the register ends the same |
| Crc16.WordOfStream | crc/crc16.cpp:47-61 | the number returned for a message is the bit-serial register after its bits, started with all ones, read as a number |
| CrcValues.Constants | crc/crc16.cpp:49-50 | that start is 0xFFFF and the polynomial is 0xA001 |
| CrcValues.EmptyMessage | crc/crc16.cpp:49-60 | the CRC of no bytes is 0xFFFF |
| CrcValues.GuideExample | crc/crc16.cpp:47-61 | the CRC of the bytes 02 07 is 0x1241, as the guide has it |
| CrcTheory.ShiftsLinear | crc/crc16.cpp:4-45 | shifting is linear over exclusive-or, which is why one table of 256 entries suffices |
| CrcTheory.RunLinear | crc/crc16.cpp:53-58 | the register after a stream is linear in start value and stream together |
| CrcTheory.RunInjective | crc/crc16.cpp:53-58 | for a fixed stream the register can be run backwards: different start values never meet |
| CrcTheory.ShortRunsMeet | crc/crc16.cpp:53-58 | two runs over at most sixteen bits meet only if their start values differ exactly where their streams do |
| Crc16.BurstErrorsDetected | crc/crc16.cpp:47-61 | messages of one length that differ only within sixteen consecutive bits have equal CRCs if and only if they are equal |
| Crc16.AdjacentBytesDetected | crc/crc16.cpp:53-58 | the same for up to two adjacent bytes between any equal prefix and suffix |
| Crc16.OddBitErrorsDetected | crc/crc16.cpp:47-61 | an odd number of flipped bits anywhere changes the CRC |
| Crc16.WordIsRegister | crc/crc16.cpp:60 | the number returned and the final register determine each other |
| CrcTheory.Residue | crc/crc16.cpp:47-61 | sixteen further bits bring the register to zero if and only if they are the register |
| Crc16.TrailerChecks | crc/crc16.cpp:47-61 | the CRC of a message and two further bytes is 0 if and only if they are the low and the high byte of the message's CRC |
| Sonbest.OnlySealedChecks | devs/sonbest-SD5110B.cpp:63-65 | of all two-byte trailers exactly the one that send_cmd appends makes the CRC of the frame 0 |
| Sonbest.SonbestSd5110b.constructor | devs/sonbest-SD5110B.cpp:18-24 | address 0 is replaced by 1 |
| Sonbest.SonbestSd5110b.SetAddr | devs/sonbest-SD5110B.cpp:37-43 | address 0 is ignored |
| Sonbest.SonbestSd5110b.SendCmd | devs/sonbest-SD5110B.cpp:45-76 | for a valid descriptor the buffer is the read command of this address with its CRC sealed on: function 3, from register 0, for exactly as many registers as the nine bytes of a reply have data for; the frame checks to zero; success means eight bytes were written; otherwise nothing changes |
| Sonbest.SonbestSd5110b.FillTrailer | devs/sonbest-SD5110B.cpp:64-65 | the CRC goes behind the six bytes there, low byte first |
| Sonbest.SonbestSd5110b.RecognizePacket | devs/sonbest-SD5110B.cpp:78-96 | the answer is 9 from nine bytes on and 0 below, whatever the bytes |
| Words.PowerTest | ringbuffer/unlock_ringbuffer.cpp:45-46 | n & (n - 1) is zero exactly for powers of two |
| RingBuffer.RoundupPowerOfTwo | ringbuffer/unlock_ringbuffer.cpp:43-54 | the least power of two not below val for 1 <= val <= 2^31, and 0 for 0 and where 32 bits do not hold it; the loop ends |
| RingBuffer.RoundUpBounds | ringbuffer/unlock_ringbuffer.cpp:43-54 | that is the power of two from val up to below twice val, where there is one |
| RingBuffer.HighestBit | ringbuffer/unlock_ringbuffer.cpp:48-51 | the loop ends with the highest bit of val alone |
| RingBuffer.MaskIsMod | ringbuffer/unlock_ringbuffer.cpp:62-79 | masking an index with the size less one is the remainder by the size, and a slot of the array |
| RingBuffer.SlotWraps | ringbuffer/unlock_ringbuffer.cpp:78-90 | the wrap of an index at 2^32 does not move any slot counted from it |
| RingBuffer.UnlockRingBuffer.constructor | ringbuffer/unlock_ringbuffer.cpp:8-19 | the capacity is the argument rounded up, also for a negative argument converted to unsigned |
| RingBuffer.UnlockRingBuffer.Init | ringbuffer/unlock_ringbuffer.cpp:30-41 | an empty queue over a new array of the capacity |
| RingBuffer.UnlockRingBuffer.GetData | ringbuffer/unlock_ringbuffer.cpp:57-63 | the array from there on holds the front of the queue, up to the array's end |
| RingBuffer.UnlockRingBuffer.Put | ringbuffer/unlock_ringbuffer.cpp:65-93 | appends exactly the leading bytes that fit and returns how many |
| RingBuffer.UnlockRingBuffer.Get | ringbuffer/unlock_ringbuffer.cpp:95-123 | removes exactly the oldest bytes that were asked for and are there, in order, and leaves the rest of the caller's buffer alone |
| RingBuffer.UnlockRingBuffer.CopyIn | ringbuffer/unlock_ringbuffer.cpp:77-82 | the two block copies write the bytes to consecutive slots, going round the end |
| RingBuffer.UnlockRingBuffer.CopyOut | ringbuffer/unlock_ringbuffer.cpp:107-112 | the two block copies read consecutive slots, going round the end |
| RingBuffer.WindowExtends | ringbuffer/unlock_ringbuffer.cpp:77-90 | writing behind the queued slots extends the queue and disturbs none of it |
| RingBuffer.PutExtends | ringbuffer/unlock_ringbuffer.cpp:69-90 | advancing the in index past what was written appends it, across both wrap-arounds |
| RingBuffer.GetSplits | ringbuffer/unlock_ringbuffer.cpp:99-120 | advancing the out index removes exactly the front of the queue, across both wrap-arounds |
| RingSteps.StepKeeps | ringbuffer/unlock_ringbuffer.cpp:65-123 | every single sample, byte copy and publish of either thread keeps the invariant |
| RingSteps.NothingLostOrReordered | ringbuffer/unlock_ringbuffer.cpp:65-123 | in every state of every interleaving the bytes delivered, then the published window, are the bytes accepted |
| RingSteps.ProducerKeepsOffWindow | ringbuffer/unlock_ringbuffer.cpp:69-82 | the producer never writes a slot of the published window, however stale its sample and however often the indices wrapped |
| RingSteps.ConsumerStaysInWindow | ringbuffer/unlock_ringbuffer.cpp:99-112 | every byte the consumer copies lies in the published window, is the accepted byte of that place, and is none that the producer may still write |
| RingSteps.StepRefinesQueue | ringbuffer/unlock_ringbuffer.cpp:84-120 | every interleaving refines an atomic queue: only the two publishes change it, by appending or removing what they carry |
| RingSteps.PutTakesLeading | ringbuffer/unlock_ringbuffer.cpp:65-93 | what a put publishes is the leading bytes of its request, as many as there was room for when it sampled, whatever the other thread did meanwhile |
| RingSteps.GetTakesOldest | ringbuffer/unlock_ringbuffer.cpp:95-123 | what a get publishes is the oldest bytes queued when it sampled, as many as were wanted and there, and those are handed over |
| RingSteps.PutNeverWaits | ringbuffer/unlock_ringbuffer.cpp:65-93 | wherever the consumer has stopped, an idle producer puts any request to its end by its own steps |
| RingSteps.GetNeverWaits | ringbuffer/unlock_ringbuffer.cpp:95-123 | wherever the producer has stopped, an idle consumer gets by its own steps |
| RingSteps.StepsDoNotDisable | ringbuffer/unlock_ringbuffer.cpp:65-123 | no step of one thread ever stands in the way of a step of the other |
| RingSteps.CopiesCommute | ringbuffer/unlock_ringbuffer.cpp:77-82 | the bytes of a put may be copied in any order, with the same result |
| RingSteps.CopiesOutCommute | ringbuffer/unlock_ringbuffer.cpp:107-112 | so may the bytes of a get |
| RingSteps.PassesThrough | ringbuffer/unlock_ringbuffer.cpp:30-123 | from a buffer just initialised, of any capacity, what is put comes out as it went in, as far as it fits |
| Gateway.ProduceChunk | gw/serial.cpp:228-231 | under the lock, the part of a chunk that fits is appended to the queue |
| Gateway.TryTake | gw/gw.cpp:693-709 | one look takes the nine oldest bytes if there are nine, and nothing otherwise |
| Gateway.LookTakes | gw/gw.cpp:693-708 | in every run a look at nine bytes or more takes exactly the nine oldest, and any other waits with the lock released |
| Gateway.StepKeeps | gw/gw.cpp:692-712 | every step of either thread keeps the invariant on queue, lock, packets and waiting |
| Gateway.PacketsAreBlocks | gw/gw.cpp:688-713 | in every run packets taken and buffer contents together are the bytes accepted, packet k is bytes 9k to 9k + 8, and each is reported once, in order |
| Gateway.NoLostWakeup | gw/gw.cpp:708 | a waiting consumer that was not signalled means fewer than nine bytes are buffered |
| Gateway.FramesReported | gw/gw.cpp:688-713 | a stream of whole frames is taken frame for frame, and completely reported whenever the consumer waits unsignalled |
| Gateway.WorksOff | gw/gw.cpp:688-713 | from every state of every run the threads can go on, with nothing new from the device, until both wait, and then every whole nine-byte block accepted has been reported |
| Gateway.ChunkServed | gw/serial.cpp:228-231 | from there any chunk can be read, is accepted as far as it fits, all of it if there is room for it beside eight bytes, and is worked off in the same way |
| Gateway.OfferedIsRead | gw/serial.cpp:228-231 | the bytes offered to the buffer are the bytes read from the device, in order, but for a chunk in hand |
| Gateway.SpuriousIsHarmless | gw/gw.cpp:692-709 | a wake-up without a signal leads, by looking again, back to the same waiting state |
| Gateway.AnyCapacity | gw/gw.cpp:688-692 | runs start with an empty buffer, of any capacity |
| Gateway.LossIffOverflow | gw/serial.cpp:228-231 | bytes read from the device go missing if and only if some put found too little room |
| HexText.Hex2Str | gw/gw.cpp:278-288 | fills exactly 3n - 1 positions with the text, ends it with a terminator, and leaves the rest of the buffer |
| HexText.TextPrinted | gw/gw.cpp:278-288 | byte k of the packet is the k-th group of three characters |
| HexText.GroupPrinted | gw/gw.cpp:282-285 | a group is the two digits, 0 to 9 and a to f in ASCII, the first padded with a zero below ten and a space from ten to fifteen, and a space |
| HexText.DecodeInverts | gw/gw.cpp:278-288 | the text decodes to the packet, zero-padded and space-padded groups alike |
| HexText.NoTerminatorInside | gw/gw.cpp:278-288 | no terminator inside the text, and a separator after each group |
| Calendar.RotatedBits | timerlist/timer.cpp:128-131 | bit w of the rotated mask is the plan's bit of the C library's weekday w |
| Calendar.WeekdayValues | timerlist/timer.cpp:128-131 | Monday has the value 1 in the mask, Tuesday 2, and so on up to Sunday with 64 |
| Calendar.FirstDelayIsLeast | timerlist/timer.cpp:144-185 | the delay is the least positive one that lands on the time of day on a day of the mask, for every current day and second |
| Calendar.LeapSecondLands | timerlist/timer.cpp:144-185 | a time of day from 86400 on lands in the day after today or after the next day of the mask |
| Calendar.EmptyMaskDelay | timerlist/timer.cpp:133-140 | with no day in the mask the plan fires a week after today's time of day |
| Timers.Timer.WeeklyTimer | timerlist/timer.cpp:90-98 | the top bit of the mask is dropped |
| Timers.Timer.SetWeekMask | timerlist/timer.cpp:109-118 | a mask with the top bit is refused and the old one kept |
| Timers.Timer.PlainTimer | timerlist/timer.cpp:16-21 | a plain timer starts unarmed and does not repeat |
| Timers.Timer.SetPeriod | timerlist/timer.cpp:74-77 | sets the period of a plain timer; a weekly timer keeps its own |
| Timers.Timer.SetTime | timerlist/timer.cpp:27-35 | negative seconds or microseconds are refused and change nothing |
| Timers.Timer.GetPeriod | timerlist/timer.cpp:120-141 | the loop finds the next day of the mask, or a week, and returns the seconds to it |
| Timers.Timer.SetTimeOfDay | timerlist/timer.cpp:144-185 | arms the timer with the first delay of its mask, for any time up to 23:59:61, and refuses a time that cannot be parsed |
| Scheduler.NextMonotone | timerlist/timerlist.cpp:36-42 | of two due times the earlier one is also earlier the next time |
| Scheduler.TickOnTime | timerlist/timerlist.cpp:29-47 | one firing is a step of the absolute scheduler: nobody else's due time moves, so the clamp at 0 never acts, and the queue stays sorted with its last due time at most the head's next |
| Scheduler.TicksInv | timerlist/timerlist.cpp:12-50 | that holds after any number of firings, with no timer lost |
| WeeklyPlan.StartedInv | timerlist/timerlist.cpp:94-109 | a queue armed at one instant with one mask starts out that way, for every mask |
| WeeklyPlan.NextIsNext | timerlist/timer.cpp:120-141 | the next due time of a plan that fires at an occurrence is its next occurrence |
| WeeklyPlan.LogExact | timerlist/timerlist.cpp:12-50 | after n firings each plan has fired at exactly its occurrences since the start and before its next due time |
| WeeklyPlan.OnlyOccurrencesFire | timerlist/timerlist.cpp:12-50 | nothing fires on another day or at another time, nothing fires twice, and times do not decrease |
| WeeklyPlan.EarliestFirst | timerlist/timerlist.cpp:12-50 | the first n firings are the n earliest occurrences |
| WeeklyPlan.TimePasses | timerlist/timerlist.cpp:12-50 | finitely many firings pass any instant |
| WeeklyPlan.EveryOccurrenceFires | timerlist/timerlist.cpp:12-50 | every occurrence of every plan after the start fires |
| FixedPeriod.PunctualIffSpreadFits | timerlist/timerlist.cpp:36-42 | with one constant period all firings are on time for ever if and only if the first delays lie within a period |
| FixedPeriod.SpreadTooWide | timerlist/timerlist.cpp:177-189 | otherwise the clamp moves a due time within the first round |
| MixedMasks.PunctualIffHeadIsFirst | timerlist/timerlist.cpp:29-42 | for timers of any kinds, one firing keeps everyone's due time if and only if nobody is due before the head |
| MixedMasks.KeepsTimeIffTurnsInOrder | timerlist/timerlist.cpp:12-50 | a list of repeating timers of any kinds keeps everyone's due time at every firing if and only if the due times that their kinds and first delays give them, taken round after round in list order, never decrease |
| MixedMasks.ShortPeriodNeverKeepsTime | timerlist/timerlist.cpp:36-42 | with a plain period under a day beside a weekly timer some firing moves a due time, whatever the delays |
| MixedMasks.TwoPlansArmed | gw/gw.cpp:478-501 | a plan for Mondays and one for every day, armed at midnight on a Monday, get these two delays |
| MixedMasks.OccurrenceLost | timerlist/timerlist.cpp:36-42 | Tuesday's occurrence of the daily plan then never fires, however long the queue runs |
| TimerList.ComparesTimes | timerlist/timerlist.cpp:111-124 | compare_timer orders by the time in microseconds, and lets equals through either way |
| TimerList.Sort | timerlist/timerlist.cpp:111-130 | the same timers, sorted by compare_timer |
| TimerList.TimerList.AddTimer | timerlist/timerlist.cpp:126-130 | the prepared list gains the timer and stays sorted |
| TimerList.TimerList.Start | timerlist/timerlist.cpp:94-109 | a prepared list replaces the served one, and the event is armed with the first delay if there is one |
| TimerList.TimerList.CleanTimers | timerlist/timerlist.cpp:162-175 | the prepared list is emptied and the served one is not |
| TimerList.TimerList.FireHead | timerlist/timerlist.cpp:30-42 | the head leaves, the others move up by its delay, and a head that repeats comes back at the end with its period |
| TimerList.TimerList.UpdateTimer | timerlist/timerlist.cpp:177-189 | every delay is reduced, clamped at 0, and nothing else of a timer changes, its microseconds included |
| TimerList.TimerList.OnTimer | timerlist/timerlist.cpp:12-50 | the head's callback is called, the list becomes exactly what one firing of the queue function makes of it, and the event is armed for its head if there is one |
| TimerList.TimerList.Serve | timerlist/timerlist.cpp:12-108 | served for any number of events, the callbacks called and their times are the log that the exactness theorems are about |
| TimerList.LoadPlans | gw/gw.cpp:635-654 | one weekly timer is added for each plan with a readable time, all with the cycle's mask and each with a number of its own, and no others; timers already prepared stay |
| TimerList.LoadedIsStarted | gw/gw.cpp:478-501 | what LoadPlans adds to an empty list, once started, satisfies the hypothesis of the exactness theorems |
| TimerList.LoadTwoLists | gw/gw.cpp:635-654 | two lists loaded one after the other and started serve the very queue that MixedMasks.OccurrenceLost is about |
| PacketCodec.NextRecord | packetfilemgr/packetfilemgr.cpp:103-115 | reading a line from the start of a record ends at the start of the next, and its first byte is the mark |
| PacketCodec.NextLineExact | packetfilemgr/packetfilemgr.cpp:103-115 | a read goes through the first newline, if it is among the next 1023 bytes, and otherwise takes those or what is left |
| PacketCodec.PayloadIsOneLine | packetfilemgr/packetfilemgr.cpp:63-86 | the payloads that the theorems are about are exactly those whose line is read back in one piece |
| LogFile.FindsFirstReached | packetfilemgr/packetfilemgr.cpp:103-126 | the scan finds the first of the line starts it comes to that holds an R |
| PacketCodec.ScanFinds | packetfilemgr/packetfilemgr.cpp:140-158 | scanning from a record on finds the first unsent record from there, or the end |
| PacketCodec.MarkingChangesOne | packetfilemgr/packetfilemgr.cpp:169-177 | the one byte written turns that one record sent and moves no position |
| PacketCodec.AppendAdds | packetfilemgr/packetfilemgr.cpp:63-86 | the bytes written by a put are one more unsent record |
| PacketCodec.ParseInverts | packetfilemgr/packetfilemgr.cpp:103-126 | parsing a file line by line gives its records back, so different records make different files |
| PacketCodec.MarkParses | packetfilemgr/packetfilemgr.cpp:169-177 | parsing a marked file gives the old list with that single entry turned sent |
| PacketCodec.PutParses | packetfilemgr/packetfilemgr.cpp:63-86 | parsing a file that was put to gives the old list and the new record, unsent |
| PacketFileMgr.PacketFileMgr.PutTodayRecord | packetfilemgr/packetfilemgr.cpp:63-86 | today's file, created if need be, grows by the mark and the record and no other file changes; a file that cannot be opened, locked or written gives its error and no record |
| PacketFileMgr.PacketFileMgr.GetTodayRecord | packetfilemgr/packetfilemgr.cpp:89-133 | rescans for the first unsent line, hands on its text and saves where it lies; nothing found is an empty text; no file, no lock and a failed read give their errors |
| PacketFileMgr.PacketFileMgr.GetRecord | packetfilemgr/packetfilemgr.cpp:135-167 | goes on to the next unsent line and saves where it lies, or closes the file and reports all sent; a read that fails closes it too |
| PacketFileMgr.PacketFileMgr.UpdateRecord | packetfilemgr/packetfilemgr.cpp:169-177 | one byte is overwritten at the saved position and the stream is left behind the line |
| PacketFileMgr.PacketFileMgr.UpdateRecordToday | packetfilemgr/packetfilemgr.cpp:179-202 | the byte is overwritten in the file that bears today's name by then, and nothing is if there is none or it cannot be opened or locked |
| PacketFileMgr.PacketFileMgr.GetFile | packetfilemgr/packetfilemgr.cpp:274-321 | a past file if there is any, else today's, else none; a past file is opened at its start; a directory or file that cannot be opened gives its error |
| PacketFileMgr.PacketFileMgr.DeleteFile | packetfilemgr/packetfilemgr.cpp:323-336 | that file goes and no other, or it stays and that is reported; the stream is closed |
| PacketFileMgr.IncrementalScanIsRescan | packetfilemgr/packetfilemgr.cpp:103-177 | with all earlier records sent, going on and rescanning find the same, oldest unsent record |
| PacketFileMgr.AppendsAndMarksCommute | packetfilemgr/packetfilemgr.cpp:63-202 | after any appends a saved position is still that record's, still the first found, and marking there marks it alone |
| PacketFileMgr.ScanGoesOn | packetfilemgr/packetfilemgr.cpp:103-158 | a scan of a file that has grown finds what it found before, or else the first unsent line that is new |
| PacketFileMgr.WhenInterrupted | packetfilemgr/packetfilemgr.cpp:103-126 | a stream that fails at once is always noticed, one that would fail only behind the last byte never |
| PacketFileMgr.EndsStreamExact | packetfilemgr/packetfilemgr.cpp:103-126 | a read meets the end of the file exactly if what is left is shorter than 1023 bytes and holds no newline |
| PacketFileMgr.ReadsOfRecords | packetfilemgr/packetfilemgr.cpp:140-158 | over records a scan asks for each line up to the first unsent one, or for all and once more |
| PacketFileMgr.RoundTrip | packetfilemgr/packetfilemgr.cpp:63-158 | for any lines already in the file, whatever their marks: an unsent one is still read first, as before; with none, a payload put behind them reads back from byte skip - 1 on, all of it for a skip of 1 and all but its first byte for 2, with the newline by the rescan, and without by the past scan if the lines before it fit the buffer |
| PacketFileMgr.LinesStillFit | packetfilemgr/packetfilemgr.cpp:63-86 | a record put behind lines that fit the buffer leaves such a file |
| Rexmit.ReadNext | rexmit/rexmit.cpp:112-145 | one read hands on the first record not yet sent, or reports all sent |
| Rexmit.DrainPast | rexmit/rexmit.cpp:111-145 | whatever posts and reads fail, the loop ends, having posted the initially unsent records once each in file order, up to the first whose read fails or that hands on nothing, and having marked exactly those; the file goes if and only if there is no such record and the deletion succeeds |
| LogFile.ScanFrom | packetfilemgr/packetfilemgr.cpp:103-158 | from any record before the first unmarked one the scan comes to that one |
| LogFile.Marked | packetfilemgr/packetfilemgr.cpp:169-202 | overwriting at the first unmarked record's line marks one more |
| RexmitSystem.ReadOf | rexmit/rexmit.cpp:112-145 | reading on comes to the first record not marked, with the text that record hands on, or to the end |
| RexmitSystem.PutKeeps | packetfilemgr/packetfilemgr.cpp:63-86 | an append at any moment, also between read, post and mark, keeps the invariant |
| RexmitSystem.PutFailedKeeps | packetfilemgr/packetfilemgr.cpp:63-81 | so does a put that fails after creating the file |
| RexmitSystem.AckKeeps | rexmit/rexmit.cpp:126-141 | an acknowledgement keeps the invariant |
| RexmitSystem.MarkKeeps | rexmit/rexmit.cpp:134-139 | a mark written on the day of its record keeps the invariant |
| RexmitSystem.GivesUp | rexmit/rexmit.cpp:100-177 | so does being killed anywhere, or a mark that is refused, if each is counted |
| RexmitSystem.StepKeeps | rexmit/rexmit.cpp:100-177 | every step of gateway, retransmitter, clock and crashes but a harmful late mark keeps the invariant |
| RexmitSystem.NoRecordLost | rexmit/rexmit.cpp:100-177 | in every state of every run each record ever put was acknowledged, or can still be read where it was put: its line is unsent, ends where it ended, hands on to either reader what was put, and reading the file from its start comes to it; and no file holds anything but lines of records |
| RexmitSystem.DuplicatesPaid | rexmit/rexmit.cpp:118-141 | second acknowledgements number at most the crashes and missed marks; a run with neither acknowledges no record twice |
| RexmitSystem.DeliveredInOrder | rexmit/rexmit.cpp:111-145 | whatever was acknowledged is the text of a record that was put, read where that record lies; all earlier records of its day were acknowledged too, and the records acknowledged of a day never go back |
| RexmitSystem.DeletedOnlyWhenAcknowledged | rexmit/rexmit.cpp:118-121 | a file disappears only by delete_file, on a later day, when every record put on it was acknowledged |
| RexmitRuns.HeldUntilAcknowledged | rexmit/rexmit.cpp:128-141 | in every run a record in hand stays in hand until it is acknowledged or the process is killed |
| RexmitRuns.NextAckIsOfRecordRead | rexmit/rexmit.cpp:128-141 | so the next acknowledgement after a read is of the record read, with the text read, and until then it can be posted again |
| RexmitRuns.HeldUntilMarked | rexmit/rexmit.cpp:134-139 | an acknowledged record stays in hand until its mark is written or refused, or the process is killed |
| RexmitRuns.UnansweredChangeNothing | rexmit/rexmit.cpp:128-133 | any number of unanswered posts put into any course of events leads to the same end |
| RexmitRuns.GatewayNeverWaits | packetfilemgr/packetfilemgr.cpp:63-86 | in every state a put is possible, today's file grows by R, the payload and a newline, nothing else changes and the retransmitter does not notice; a failed put only creates the file |
| RexmitRuns.DaysPassAndCrashesHappen | rexmit/rexmit.cpp:100-177 | a later day may begin and the process be killed at any moment, and neither touches a file |
| RexmitRuns.NeverStuck | rexmit/rexmit.cpp:100-177 | the retransmitter always has a next step of its own, and is only idle once its process has ended |
| RexmitRuns.HistoryIsWhatWasDone | rexmit/rexmit.cpp:100-177 | the records put and marked of a day are exactly those that the steps of the run put and marked |
| RexmitRuns.CountsAreWhatHappened | rexmit/rexmit.cpp:100-177 | so are the numbers of acknowledgements, crashes and missed marks |
| RexmitRuns.AnyRecordsDelivered | rexmit/rexmit.cpp:100-177 | from the start, on any day, any records put, each with something to hand on, can all be delivered, each with its own text, and marked |
| RexmitLoop.PutStep | packetfilemgr/packetfilemgr.cpp:63-86 | the file manager's put is a put of the system, or a failed one |
| RexmitLoop.ChooseStep | rexmit/rexmit.cpp:101-112 | a past file before today's; a directory or file that cannot be opened ends the process |
| RexmitLoop.ReadPastStep | rexmit/rexmit.cpp:113-145 | get_record and what the loop makes of its result is a reading step; a read that fails leaves the file and goes on |
| RexmitLoop.ReadTodayStep | rexmit/rexmit.cpp:146-177 | get_today_record likewise; where it fails the process ends |
| RexmitLoop.PostStep | rexmit/rexmit.cpp:128-141 | a post without an answer changes nothing, and one with an answer acknowledges the text in hand |
| RexmitLoop.MarkPastStep | rexmit/rexmit.cpp:137 | update_record is a mark of the system, from where reading goes on |
| RexmitLoop.MarkTodayStep | rexmit/rexmit.cpp:168 | update_record_today is a mark, late or not, or a refused one, and the loop goes on either way |
| RexmitLoop.DeleteStep | rexmit/rexmit.cpp:118-121 | delete_file is a deletion of the system, or leaves the file to be chosen again |
| LateMark.LateMarkExact | packetfilemgr/packetfilemgr.cpp:179-202 | after a mark written past midnight each record is still acknowledged or readable where it was put if and only if the mark changes no mark, newline or unskipped byte of a line of the new day's file |
| LateMark.Damaged | packetfilemgr/packetfilemgr.cpp:193-194 | otherwise the record of that line can no longer be read |
| LateMark.ReachedInChunks | packetfilemgr/packetfilemgr.cpp:103-115 | over a stretch without a newline, reading comes to a position if and only if whole chunks of the line buffer lead there |
| LateMark.StrayMarkTakesNextPut | packetfilemgr/packetfilemgr.cpp:179-202 | behind the end, earlier records are kept, and the record put next can be read where it was put if and only if whole chunks lead from the end of the file to it |
| LateMark.StrayMarkHidesNextPut | packetfilemgr/packetfilemgr.cpp:103-126 | a scan from the end of the file on finds nothing if and only if no chunk of the glued line, however long, starts with the unsent mark |
| LateMark.StrayMarkOverlong | packetfilemgr/packetfilemgr.cpp:140-158 | the glued line is read as one line if and only if it is no longer than a chunk; in step it is longer than the whole buffer |
| LateMark.LateMarkAndPutExact | packetfilemgr/packetfilemgr.cpp:179-202 | a late mark loses no record, neither then nor at the next put, if and only if it hits none, and, if it lies behind the end, whole chunks lead from there to the next record |
| LateMark.LateMarkKeepsForm | packetfilemgr/packetfilemgr.cpp:179-202 | every file stays nothing but lines of records if and only if it changes no byte |
| LateMark.MidnightLosesARecord | rexmit/rexmit.cpp:146-171 | a run of seven steps, for any two payloads, in which the new day's first record is lost |
| WorkOff.PastFileDelivered | rexmit/rexmit.cpp:111-145 | where nothing blocks, work alone acknowledges the rest of a past file, each record once and in order, and deletes it |
| WorkOff.TodayFileDelivered | rexmit/rexmit.cpp:146-171 | the same for today's file, which stays |
| WorkOff.BlockedForEver | rexmit/rexmit.cpp:122-124 | a record of a past day that hands on nothing is never got past, whatever happens, late marks included; one of today is not either, as long as no late mark changes a byte |
| WorkOff.WorkedOffIffNothingBlocks | rexmit/rexmit.cpp:100-177 | with failures, kills and restarts allowed, every state of a run whose late marks changed no byte can still be worked off, each record acknowledged with its own text, if and only if no unmarked record hands on nothing |
| WorkOff.BlockedStarvesToday | rexmit/rexmit.cpp:100-145 | while a past file holds a blocking record, in every continuation it stays, today's file is never chosen, and behind one that may be in hand no record is read as one of today's |
| LateWork.TwinWork | rexmit/rexmit.cpp:146-171 | all work goes the same way if bytes without an unsent mark follow today's last line, or its payloads differ in skipped bytes |
| LateWork.CanBeWorkedOff | rexmit/rexmit.cpp:100-177 | wherever the loop stands, unless a record blocks or the mark that is due hits one, work with nothing failing, the late mark included, has each record acknowledged with its own text, read from its own place, and leaves no past file and nothing unsent |
| LateWork.HitNeverDone | packetfilemgr/packetfilemgr.cpp:179-202 | work never has a record acknowledged with its own text that the mark in hand hits |
| LateWork.WorksOutExactly | rexmit/rexmit.cpp:100-177 | in every state of a run whose late marks changed no byte, work with nothing failing can get everything done if and only if no unmarked record hands on nothing and the mark of a record in hand from an earlier day will not change a mark, newline or unskipped byte of a line of today's file |
| WorkOff.WhatBlocks | packetfilemgr/packetfilemgr.cpp:121-152 | with one byte skipped nothing blocks; with two, exactly the unmarked records of one byte left to a past day |

## Left out

- HTTP, JSON, heartbeats and configuration: a post is acknowledged or not, a plan list is a sequence of times of day with one mask.
- LEDs, logging, console output, reading the MAC address, process and thread set-up, signals: no state worth a property.
- `gw/selector.cpp`, opening and reopening the serial device, timeouts of the poll: only the chunks that reach `put` are modelled.
- libevent, `localtime`, `mktime`, daylight saving and the drift of slow callbacks: replaced by the ideal clock; microseconds are 0 when plans are armed.
- Short or torn writes, `lockf`, state bits of streams: a put, a mark and a read of a line are single steps; that a directory, a file or a lock cannot be had is a step of `RexmitSystem`.
- The gateway naming today's file before midnight and writing to it after: a put is one step with one day.
- Clocks set backwards: `RexmitSystem.Midnight` only goes forward.
- The memory beyond the end of the ring array that `recognize_packet` sees through `get_data`: its answer does not depend on the bytes, so it is a parameter of `Gateway.TryTake`.
- Weak memory ordering: the steps of `RingSteps` are sequentially consistent.
- Allocation failure, freeing of timers, `delete_timer`, `CRC16_check`, `get_packet_size`: stubs, constants, or nothing to prove.
- Lists whose timers do not share a mask: no exactness is claimed for them, only what `MixedMasks` says.
- `Timer::set_time` of a date text: plain timers are armed with a delay; no list of the gateway arms one with a date.
- The mutex of the timer list: its methods are modelled as if called one at a time.
- The order in which `list::sort` leaves timers of equal delay: `compare_timer` is not strict, and the theorems hold for every such order.
- A file is named by a day number instead of a date text, and the directory order in which past files come up is arbitrary.
- The two tables are held as sixteen rows of sixteen each; the two timer classes are one class with a flag that tells their methods apart.
- TimerList.TimerList.OnTimer: what the event is armed with when no timer is left is open, as the source reads the front of an empty list.
- TimerList.TimerList.Start: the same, when there is no timer to start with.
- PacketFileMgr.PacketFileMgr.GetRecord: the lines of the file are complete and fit the line buffer, as puts leave them; otherwise the state bits of the C++ stream, which are not modelled, decide what happens, and on a longer line the loop of the source does not end.
- RexmitSystem.NoRecordLost: and the other theorems about runs are for payloads that are not empty, hold no newline or zero byte and fit a line, and for runs whose late marks change no byte; `LateMark.LateMarkAndPutExact` says exactly which others lose nothing by the next put, and what follows those is not pursued.
