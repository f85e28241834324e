# Verified model of the IoT board firmware's algorithms

A Dafny 4.11 model of the parts of the firmware that hold algorithms rather than register writes. Code that
changes lists, buffers and devices in place is modelled by classes and methods with loops; each is proved equal
to, or bounded by, a function of its inputs, and the laws are proved about those functions. Check everything with
`dafny verify dfyconfig.toml`.

| files | what they model |
|---|---|
| `SchedulerSpec`, `Punctuality`, `TimerLists`, `Scheduler` | the timer scheduler: two linked lists that share nodes, a dummy node, an interrupt that comes between the sections of the main code, and how long timers wait in ticks |
| `Crc16` | the bit-serial CRC of the crypto device's frames |
| `DerLength`, `DerInteger`, `DerSignature` | lengths, integers and ECDSA signature values in DER |
| `Calendar`, `Decimals`, `CertDate`, `DateCode` | calendar arithmetic and the date formats of certificates |
| `CertDef`, `CompCert`, `CertCode` | certificates built from a definition: elements, re-signing in place, compressed certificates |
| `DeviceLocs` | the list of device locations that a certificate needs |
| `Rings`, `UsartRings` | the serial port's rings, shared with its interrupts |
| `ExchangeBuffer`, `MqttFrames`, `MqttClient` | the wrapping buffer, and the MQTT packets that go through it |
| `TwiMaster` | the write path of the two-wire bus driver |
| `JsonLookup` | looking up keys in the text of a flat JSON object |
| `Arithmetic`, `Bytes`, `Options`, `Status` | what they share |

Interrupts are modelled by calls of `Preempt`, which lets any number of them happen, at every point where the code
does not mask them.

## Where the code does not keep its promise

Each of these is proved with its exact condition, or with an input that shows the failure.

- `Crc16.FinishedAcceptedExactly`: a packet whose size is that of the CRC alone is finished into one that is not accepted.
- `Crc16.BurstUnnoticed`: a burst across the end of the data can go unnoticed at six bits, since the CRC is sent in another order than the data.
- `SchedulerSpec.ArmedExactly`, `SchedulerSpec.DeleteUnarms`, `SchedulerSpec.CallbackUnarms`: initialisation, deleting in two cases and taking a callback in one enable the timer interrupt although no timer waits, and nothing else does; an interrupt would then read a missing head. All are reached from reset.
- `Punctuality.NeverEarly`, `Scheduler.EarlyExpiry`: no timer expires before its wait is over, except by what is skipped when the head of the list is deleted with its overflow pending; such a run expires a timer after 6 of its 100 ticks.
- `Scheduler.TimerScheduler.Schedule`, `Scheduler.LateTimer`: when interrupts empty the list before the last statement of a restart, the code takes the counter to run with nothing waiting, and the next timer is late by what the counter has counted.
- `SchedulerSpec.ExpiryCount`: a timer due in the dummy's own tick takes one interrupt more than its wait needs.
- `SchedulerSpec.RebaseExactly`: after a wrap of 32-bit time, the rebase leaves a new timer 65536 ticks late.
- `DerInteger.AcceptedIsWhole`: the size of an integer is computed in 32 bits, so a query for sizes accepts one that is not there.
- `Decimals.LongTaken`: of a number of more than eleven characters, those before the last eleven are never looked at.
- `DerSignature.SignatureTaken`: the bit string's length is taken to be three more than the sequence's, also where the sequence's length field is longer than one octet.
- `CertDate.MaxDateBounds`, `CompCert.NoExpiryNeedsText`: the latest POSIX date is one that its encoder refuses, so such a certificate cannot go without expiry.
- `CertDate.DateRoundTrip`, `CertDate.NoSuchDay`: the POSIX encoder accepts days that the calendar does not have, and they come back as others.
- `CertDate.ExpiryDayExists`, `CertDate.LeapDayExpires`, `CompCert.ExpiryReads`: years are added to an issue date without a look at the calendar, so what is issued on 29 February expires on a day that is not there, exactly when the year of expiry is a common one.
- `DeviceLocs.AppendCovers`, `DeviceLocs.MergeExactly`, `DeviceLocs.LongSpanUncovered`, `DeviceLocs.LongMergeUncovers`: a span that reaches 65536 is stored as one that covers too little.
- `MqttClient.TopicLengthExactly`, `MqttClient.LongPublishMisread`: of a packet with a longer length field, the client reads the topic's length from the wrong octets.
- `MqttFrames.PublishRoundTrip`: at quality of service 2 the length counts a packet identifier that is not sent.
- `TwiMaster.Master.Write`: at the end of a run the driver reports no failure even when octets were refused.
- `JsonLookup.QuoteBehindKey`, `JsonLookup.QuotedKeyMisleads`, `JsonLookup.EscapedKeyHides`: a key with a quote in it can be found where no pair has it, and a key that begins one with an escaped quote can hide a later pair.
- `JsonLookup.ObjectLookup`, `JsonLookup.SignHides`: a number with a sign or a point hides every pair behind it.
- `JsonLookup.EmptyObject`: a lookup in an object without pairs reads behind its end.
- `JsonLookup.StringOfObject`: string lengths are kept in one octet, and a number read as a string loses its first digit.

## Model

| member | source | states |
|---|---|---|
| `SchedulerSpec.RunInv` | mcc_generated_files/src/rtc.c:47-356 | Over any run of initialisations, deletions, creations, callback calls and interrupts, in any order: no timer is queued twice, the active list is ordered by time and then by creation and never lies before the last timeout, nothing lies before the dummy, no wait longer than 65535 ticks is unsplit, and the history of expiries is ordered |
| `SchedulerSpec.ServedExactly` | mcc_generated_files/src/rtc.c:222-317 | After each section, whether the interrupt is enabled while a timer waits: every section keeps it so, and a callback taken with the enable read as off is the only exception, exactly when a timer then waits; as the code reads the enable, that does not happen (see `CallNextCallback`) |
| `SchedulerSpec.RunServed` | mcc_generated_files/src/rtc.c:47-356 | Over any run in which no callback is taken with the enable read as off, a timer that waits always has its interrupt enabled |
| `SchedulerSpec.ExpiriesInOrder` | mcc_generated_files/src/rtc.c:152-173 | From reset, whatever the program and the interrupts do, the times at which timers expire never decrease between two stops of the clock, and equal times expire in the order of creation |
| `SchedulerSpec.ExpiryCount` | mcc_generated_files/src/rtc.c:177-202 | With nothing created or deleted meanwhile, the first timer expires after exactly so many interrupts and not before; each loads at most 65535 ticks and the loads add up to its wait. The number is max(1, ceil(d / 65535)), and one more when the dummy already counts and the timer is due in the dummy's own tick |
| `SchedulerSpec.ExpiryCountCorner` | mcc_generated_files/src/rtc.c:190-196 | That one more interrupt happens: a timer created for the tick of a dummy that is counting for another |
| `SchedulerSpec.RebaseExactly` | mcc_generated_files/src/rtc.c:147-150 | The stored time is the one asked for exactly when 32 bits do not wrap; when they do, the rebase leaves it 65536 ticks late |
| `SchedulerSpec.ArmedExactly` | mcc_generated_files/src/rtc.c:47-356 | After each section in each state, whether an enabled interrupt finds a timer to expire; it does not exactly after an initialisation with nothing waiting, after a deletion in the two cases below, and after a callback is taken with the enable read as on and nothing waiting when interrupts are masked |
| `SchedulerSpec.DeleteArmedExactly` | mcc_generated_files/src/rtc.c:222-246 | The masked sections of a deletion leave an enabled interrupt with a timer to expire, except in exactly two cases: the active list has become empty since the code found it filled, or nothing waits and the execute queue is searched past its front |
| `SchedulerSpec.DeleteUnarms` | mcc_generated_files/src/rtc.c:222-246 | Both cases come about from reset: one timer expires around the deletion of another |
| `SchedulerSpec.CallbackUnarms` | mcc_generated_files/src/rtc.c:294-309 | That last case comes about from reset: one timer has expired and another expires between the reading of the enable and the masking |
| `Punctuality.NeverEarly` | mcc_generated_files/src/rtc.c:100-111 | Between the creation and the expiry of a timer there are at least as many ticks as its wait, but for what the reading of the time skipped ahead in the meantime; in every state of the scheduler, since all its methods keep `Punctual` |
| `Punctuality.Created` | mcc_generated_files/src/rtc.c:322-338 | A creation gives the new timer its whole wait from this tick on, and makes no other early |
| `Punctuality.Left` | mcc_generated_files/src/rtc.c:219-249 | A deletion makes no other timer early by more than what it skips |
| `Punctuality.Fired` | mcc_generated_files/src/rtc.c:341-356 | A timer that the interrupt expires has waited long enough |
| `SchedulerSpec.FireInv` | mcc_generated_files/src/rtc.c:341-356 | The interrupt keeps the invariant of runs |
| `SchedulerSpec.InsertInv` | mcc_generated_files/src/rtc.c:322-338 | Creation keeps the invariant of runs |
| `SchedulerSpec.InsertHolds` | mcc_generated_files/src/rtc.c:139-175 | After creation the timer is in the active list with its time |
| `SchedulerSpec.DeleteActiveInv` | mcc_generated_files/src/rtc.c:219-249 | Deletion from the active list keeps the invariant of runs |
| `SchedulerSpec.DeleteQueuedInv` | mcc_generated_files/src/rtc.c:219-249 | Deletion from the execute queue keeps the invariant of runs |
| `SchedulerSpec.TakeCallbackInv` | mcc_generated_files/src/rtc.c:291-309 | Taking the oldest expired timer keeps the invariant of runs |
| `SchedulerSpec.InsertTimers` | mcc_generated_files/src/rtc.c:322-338 | Creation adds exactly its timer to the set of queued timers |
| `SchedulerSpec.FireTimers` | mcc_generated_files/src/rtc.c:341-356 | The interrupt loses no timer and adds none |
| `SchedulerSpec.DeleteActiveRemoves` | mcc_generated_files/src/rtc.c:219-261 | Deletion takes exactly its timer out of the set of queued timers if it was waiting, and none otherwise |
| `SchedulerSpec.DeleteQueuedRemoves` | mcc_generated_files/src/rtc.c:219-261 | Deletion from the execute queue takes out exactly its timer |
| `SchedulerSpec.TakeCallbackTimers` | mcc_generated_files/src/rtc.c:291-305 | Taking a callback takes out exactly the oldest expired timer |
| `Scheduler.TimerScheduler.constructor` | mcc_generated_files/src/rtc.c:39-45 | At reset both lists are empty and the whole invariant holds |
| `Scheduler.TimerScheduler.Init` | mcc_generated_files/src/rtc.c:47-74 | Initialisation enables the interrupt and keeps the invariant |
| `Scheduler.TimerScheduler.StartTimerAtHead` | mcc_generated_files/src/rtc.c:177-202 | Loads the counter for the head, puts the dummy in front of a wait over 65535 ticks, or stops the clock when nothing waits |
| `Scheduler.TimerScheduler.LoadTimerAtHead` | mcc_generated_files/src/rtc.c:187-201 | The period loaded is the dummy's or the distance from the last timeout to the head |
| `Scheduler.TimerScheduler.MakeAbsolute` | mcc_generated_files/src/rtc.c:100-111 | The time is at least the last timeout plus the wait, and the present never lies past the head |
| `Scheduler.TimerScheduler.SortedInsert` | mcc_generated_files/src/rtc.c:139-175 | The relinking loop puts the node behind all that are due no later, replaces a dummy at the head, and says whether the head changed |
| `Scheduler.TimerScheduler.DeleteFromActive` | mcc_generated_files/src/rtc.c:225-249 | The masked search and unlinking on the active list does what deletion on the ordered list does, for head, middle, and absent timers, and on a list that has become empty, and leaves the interrupt enabled while a timer waits |
| `Scheduler.TimerScheduler.DeleteFromQueue` | mcc_generated_files/src/rtc.c:225-249 | The same code on the execute queue, which restarts or enables the clock for the active list |
| `Scheduler.TimerScheduler.RemoveActive` | mcc_generated_files/src/rtc.c:225-249 | The masked section on the active list in every valid state: what it skips ahead, when the head is deleted with its overflow pending, is recorded |
| `Scheduler.TimerScheduler.Delete` | mcc_generated_files/src/rtc.c:219-261 | With interrupts between its tests, its masked sections, the restart of the clock and the end, the timer ends in neither list, no other timer is lost, nothing new waits, its link is cleared, and the interrupt is enabled while a timer waits |
| `Scheduler.TimerScheduler.EnqueueCallback` | mcc_generated_files/src/rtc.c:265-282 | The walk to the end of the execute queue appends the node and keeps the chain |
| `Scheduler.TimerScheduler.MoveHeadToQueue` | mcc_generated_files/src/rtc.c:343-351 | The head of the active list becomes the end of the execute queue; the lists stay chains of different nodes that share none |
| `Scheduler.TimerScheduler.TimerInterrupt` | mcc_generated_files/src/rtc.c:341-354 | The interrupt on the linked lists is the interrupt of the model: one timer expires, or the dummy goes |
| `Scheduler.TimerScheduler.ServeInterrupt` | mcc_generated_files/src/rtc.c:341-356 | The whole interrupt, with its flag cleared, keeps the invariant of lists, times and counter |
| `Scheduler.TimerScheduler.ServeOverflow` | mcc_generated_files/src/rtc.c:341-356 | An overflow served expires the head only after its wait, and records the tick |
| `Scheduler.TimerScheduler.Preempt` | mcc_generated_files/src/rtc.c:341-356 | Any number of counter ticks and interrupts keeps the invariant, the punctuality included, loses no timer and creates none; every timer that waited still waits or its expiry is in the history; from an armed state the state stays armed, and the interrupt stays enabled for timers that wait |
| `Scheduler.TimerScheduler.FinishStart` | mcc_generated_files/src/rtc.c:200-201 | Interrupts between the last two statements of a restart of the clock keep the invariant; they can leave the counter taken to run with nothing waiting |
| `Scheduler.TimerScheduler.Schedule` | mcc_generated_files/src/rtc.c:327-337 | The masked section of creation makes the timer due its wait after the time read, at or after the last timeout plus the wait, records the creation, and leaves the interrupt with a timer to expire; with nothing waiting before, it is due after its wait alone unless the code takes the counter to run |
| `Scheduler.TimerScheduler.Create` | mcc_generated_files/src/rtc.c:322-338 | Creation with interrupts between its sections: the state is that of an insertion at its wait or more after the last timeout, with the wait recorded, and of interrupts since; the timer waits or has expired, no other is lost, and the interrupt is enabled and has a timer to expire |
| `Scheduler.TimerScheduler.TakeFront` | mcc_generated_files/src/rtc.c:298-309 | The masked section takes the oldest expired timer out of the queue and marks it as not in use, and puts the interrupt enable back to what was read before |
| `Scheduler.TimerScheduler.CallNextCallback` | mcc_generated_files/src/rtc.c:291-317 | With interrupts also between the reading of the enable and the masking: runs exactly the oldest expired timer; it stays queued only if its callback asked to be rescheduled, and then waits for the time that the callback gave, from the last timeout on or later, with that wait recorded; otherwise no creation is recorded |
| `Scheduler.TimerScheduler.DeleteDummyHead` | mcc_generated_files/src/rtc.c:219-261 | With interrupts between its sections, deleting the dummy takes it off, or leaves it with nothing behind it where it was put back over waiting timers, and clears its link |
| `Scheduler.TimerScheduler.FlushAll` | mcc_generated_files/src/rtc.c:205-215 | From every valid state and whatever interrupts come: ends, with both lists empty and the invariant kept; without interrupts, with the clock stopped and the interrupt disabled |
| `Scheduler.TimerScheduler.FlushHead` | mcc_generated_files/src/rtc.c:208-210 | Each turn of its first loop leaves fewer timers waiting, or as many without the dummy |
| `Scheduler.EarlyExpiry` | mcc_generated_files/src/rtc.c:100-111 | On a real scheduler, the overflow of a timer of 5 ticks is pending when that timer is deleted, and expires another one after 6 of its 100 ticks |
| `Scheduler.LateTimer` | mcc_generated_files/src/rtc.c:100-111 | On a real scheduler, a timer without wait expires before the clock is marked as running, and a timer of 5 ticks created 1000 ticks later is put 1005 ticks away |
| `Crc16.AtCrc` | mcc_generated_files/cryptoauthlib/lib/atca_command.c:618-641 | The nested loops compute the remainder of the message bits, stored low octet first |
| `Crc16.AtCalcCrc` | mcc_generated_files/cryptoauthlib/lib/atca_command.c:648-658 | Stores the CRC of the counted octets behind them |
| `Crc16.AtCheckCrc` | mcc_generated_files/cryptoauthlib/lib/atca_command.c:666-675 | Accepts a frame exactly when the two octets behind the counted ones are their CRC |
| `Crc16.CrcLinear` | mcc_generated_files/cryptoauthlib/lib/atca_command.c:626-638 | The CRC of the difference of two messages of equal length is the difference of their CRCs, for any length |
| `Crc16.BurstDetected` | mcc_generated_files/cryptoauthlib/lib/atca_command.c:626-638 | Messages that differ only within 16 consecutive bits have different CRCs, for any length and place |
| `Crc16.StoredTellsRegister` | mcc_generated_files/cryptoauthlib/lib/atca_command.c:639-640 | Two messages have the same two stored octets exactly when the register ends the same |
| `Crc16.OctetsLinear` | mcc_generated_files/cryptoauthlib/lib/atca_command.c:618-641 | The two octets stored for the exclusive or of two messages are the exclusive or of those stored for each |
| `Crc16.BurstRefused` | mcc_generated_files/cryptoauthlib/lib/atca_command.c:666-675 | A response that would be accepted is refused when its data change within 16 consecutive bits, wherever they lie among the octets |
| `Crc16.CrcChangeRefused` | mcc_generated_files/cryptoauthlib/lib/atca_command.c:666-675 | And when nothing but its stored CRC changes |
| `Crc16.BurstUnnoticed` | mcc_generated_files/cryptoauthlib/lib/atca_command.c:666-675 | Every accepted response of two counted octets or more has an accepted neighbour that differs in a burst of six bits across the end of the data: the last two bits of the data, and two of the CRC |
| `Crc16.WindowIsTight` | mcc_generated_files/cryptoauthlib/lib/atca_command.c:622-635 | At 17 bits, any message has a neighbour with the same CRC: the generator added in place |
| `Crc16.CrcParity` | mcc_generated_files/cryptoauthlib/lib/atca_command.c:622-635 | The parity of the CRC is that of the message |
| `Crc16.AcceptedParity` | mcc_generated_files/cryptoauthlib/lib/atca_command.c:666-675 | Every accepted frame has an even number of one bits |
| `Crc16.FinishedAcceptedExactly` | mcc_generated_files/cryptoauthlib/lib/atca_command.c:648-675 | Every frame finished by atCalcCrc is accepted by atCheckCrc; below 256 octets, exactly unless its size is that of the CRC alone, which is then stored over the size octet |
| `DerLength.LengthRoundTrip` | mcc_generated_files/cryptoauthlib/lib/atcacert/atcacert_der.c:32-139 | Decoding an encoded 32-bit length, whatever follows it, gives the length and the size of its field |
| `DerLength.LengthShortest` | mcc_generated_files/cryptoauthlib/lib/atcacert/atcacert_der.c:32-86 | The encoding is the shortest field that decodes to the length, and the only one of its size (section 10.1 of X.690) |
| `DerLength.LengthForms` | mcc_generated_files/cryptoauthlib/lib/atcacert/atcacert_der.c:50-85 | The octets of every length: one below 128, and behind 0x81 to 0x84 one to four, the most significant first |
| `DerLength.LengthTaken` | mcc_generated_files/cryptoauthlib/lib/atcacert/atcacert_der.c:103-138 | Exactly the fields of one octet below 128, and of one to four octets behind their number, are taken, with these values |
| `DerLength.EncLength` | mcc_generated_files/cryptoauthlib/lib/atcacert/atcacert_der.c:32-86 | Writes the encoding, or reports its size and leaves the buffer alone when there is no buffer or no room |
| `DerLength.DecLength` | mcc_generated_files/cryptoauthlib/lib/atcacert/atcacert_der.c:88-139 | The octet loop reads the length as section 8.1.3 of X.690 has it, and refuses the same inputs |
| `DerLength.AdjustLength` | mcc_generated_files/cryptoauthlib/lib/atcacert/atcacert_der.c:141-181 | On success the field holds the encoding of the adjusted length in place; on failure nothing changes |
| `DerLength.AdjustedExactly` | mcc_generated_files/cryptoauthlib/lib/atcacert/atcacert_der.c:141-181 | A field is adjusted exactly when it decodes, nothing below zero is asked for, and the new length in 32 bits has a field of the old size; otherwise the codes say which failed |
| `DerLength.AdjustedDecodes` | mcc_generated_files/cryptoauthlib/lib/atcacert/atcacert_der.c:141-181 | An adjusted field keeps its size and decodes to the old length plus the change exactly when that sum fits 32 bits |
| `DerInteger.ContentKeepsValue` | mcc_generated_files/cryptoauthlib/lib/atcacert/atcacert_der.c:199-214 | The content octets stand in two's complement for the caller's signed or unsigned number and are minimal as in section 8.3.2 of X.690 |
| `DerInteger.MinimalUnique` | mcc_generated_files/cryptoauthlib/lib/atcacert/atcacert_der.c:199-214 | Minimal contents of equal value are equal |
| `DerInteger.IntegerCanonical` | mcc_generated_files/cryptoauthlib/lib/atcacert/atcacert_der.c:183-248 | Two inputs, of any lengths and signedness, have the same encoding exactly when they stand for the same number |
| `DerInteger.IntegerRoundTrip` | mcc_generated_files/cryptoauthlib/lib/atcacert/atcacert_der.c:183-309 | Decoding an encoded integer, whatever follows it, gives its content when there is room for it, and its size |
| `DerInteger.IntegerTaken` | mcc_generated_files/cryptoauthlib/lib/atcacert/atcacert_der.c:266-303 | With a buffer, exactly those inputs are taken that hold the tag, a length and as much content, within the buffer's size, and the content is handed out |
| `DerInteger.IntegerReencodes` | mcc_generated_files/cryptoauthlib/lib/atcacert/atcacert_der.c:250-309 | An accepted integer is encoded again into the octets it came from exactly when its length is in the shortest form and its content is minimal |
| `DerInteger.AcceptedIsWhole` | mcc_generated_files/cryptoauthlib/lib/atcacert/atcacert_der.c:280-284 | An accepted integer has all its content in the input exactly when its size fits 32 bits, with an input of six octets for which it does not |
| `DerInteger.EncInteger` | mcc_generated_files/cryptoauthlib/lib/atcacert/atcacert_der.c:183-248 | The trimming loop and the padding write the encoding; a query for the size and a short buffer report exactly the size that would be written, and an empty input is refused |
| `DerInteger.DecInteger` | mcc_generated_files/cryptoauthlib/lib/atcacert/atcacert_der.c:250-309 | Reads the content into the buffer, or reports the size needed, or refuses, as the decoding function says |
| `DerSignature.SignatureRoundTrip` | mcc_generated_files/cryptoauthlib/lib/atcacert/atcacert_der.c:311-560 | For every raw signature, decoding its encoding with anything behind it gives the signature and exactly the size of the encoding |
| `DerSignature.SignatureReencodes` | mcc_generated_files/cryptoauthlib/lib/atcacert/atcacert_der.c:311-560 | An accepted signature value is encoded again into the octets it came from exactly when its lengths are one octet and its integers minimal and not negative |
| `DerSignature.SignatureTaken` | mcc_generated_files/cryptoauthlib/lib/atcacert/atcacert_der.c:400-560 | Whatever is written as a bit string with no unused bits that holds a sequence of two integers of at most 32 octets, or 33 with a zero in front, in any form of their lengths and with anything behind, is taken, and gives the two numbers in 32 octets each |
| `DerSignature.SignatureSplit` | mcc_generated_files/cryptoauthlib/lib/atcacert/atcacert_der.c:400-560 | Nothing else is taken |
| `DerSignature.EncSignature` | mcc_generated_files/cryptoauthlib/lib/atcacert/atcacert_der.c:311-379 | Writes the bit string, the sequence and the two integers in place, all lengths in one octet; with no room it reports the size needed and leaves the buffer alone |
| `DerSignature.DecSignature` | mcc_generated_files/cryptoauthlib/lib/atcacert/atcacert_der.c:381-560 | Decodes every accepted form, right-aligned in 64 octets, and refuses the same inputs with the same codes |
| `DerSignature.FittedContent` | mcc_generated_files/cryptoauthlib/lib/atcacert/atcacert_der.c:478-503 | Right-aligning undoes the content encoding of each half |
| `Calendar.GmTimeIsClock` | mcc_generated_files/cryptoauthlib/lib/atcacert/atcacert_date.c:691-733 | The decoded date of every second count is the one reached by letting the calendar tick that many seconds from the start of 1970 |
| `Calendar.SecondsOfGmTime` | mcc_generated_files/cryptoauthlib/lib/atcacert/atcacert_date.c:691-759 | Every second count decodes to a day that the calendar has, and encoding it gives the count back |
| `Calendar.GmTimeOfSeconds` | mcc_generated_files/cryptoauthlib/lib/atcacert/atcacert_date.c:691-759 | Decoding the seconds of a real date gives the date back |
| `Calendar.SecondsMonotone` | mcc_generated_files/cryptoauthlib/lib/atcacert/atcacert_date.c:735-759 | Seconds keep calendar order strictly, in both directions |
| `Calendar.MonthsMakeYear` | mcc_generated_files/cryptoauthlib/lib/atcacert/atcacert_date.c:712-718 | Twelve months make a year, so the month loop stops before a thirteenth |
| `Calendar.MonthStarts` | mcc_generated_files/cryptoauthlib/lib/atcacert/atcacert_date.c:675-718 | The start of each month, in days of the year and seconds, for common and leap years of the Gregorian calendar |
| `Calendar.YearStartClosed` | mcc_generated_files/cryptoauthlib/lib/atcacert/atcacert_date.c:656-671 | The years' seconds add up to the Gregorian count of days |
| `Calendar.AcceptedFits` | mcc_generated_files/cryptoauthlib/lib/atcacert/atcacert_date.c:761-871 | No date that the POSIX encoder accepts makes the 32-bit sum wrap, not even with too large a day for its month |
| `Calendar.AcceptsExactly` | mcc_generated_files/cryptoauthlib/lib/atcacert/atcacert_date.c:796-871 | The POSIX encoder accepts exactly the dates from 1970 on with their fields in range and their seconds before the last 32-bit count, whether their month has the day or not |
| `Calendar.AcceptsDecoded` | mcc_generated_files/cryptoauthlib/lib/atcacert/atcacert_date.c:796-832 | Of all 32-bit second counts, the encoder refuses the date of the last one only |
| `Calendar.GmTime32` | mcc_generated_files/cryptoauthlib/lib/atcacert/atcacert_date.c:691-733 | The year and month loops find the date |
| `Calendar.MkGmTime32` | mcc_generated_files/cryptoauthlib/lib/atcacert/atcacert_date.c:735-759 | The two countdown loops give the seconds modulo 2^32, for any fields |
| `Calendar.EncPosix` | mcc_generated_files/cryptoauthlib/lib/atcacert/atcacert_date.c:761-871 | Accepts exactly the dates in range, up to 14 seconds into the last minute, and gives their seconds |
| `Decimals.NumberOfDecimal` | mcc_generated_files/cryptoauthlib/lib/atcacert/atcacert_date.c:163-183 | A number that fits the width is what its digits stand for |
| `Decimals.DecimalOfNumber` | mcc_generated_files/cryptoauthlib/lib/atcacert/atcacert_date.c:185-229 | A string of digits is what its number is written as |
| `Decimals.ShortTaken` | mcc_generated_files/cryptoauthlib/lib/atcacert/atcacert_date.c:188-229 | Up to ten characters are taken exactly when they are the digits of a number of 32 bits |
| `Decimals.LongTaken` | mcc_generated_files/cryptoauthlib/lib/atcacert/atcacert_date.c:198-214 | Of more, the last ten are taken exactly when they are and a zero is before them, whatever stands in front of that |
| `Decimals.UintToStr` | mcc_generated_files/cryptoauthlib/lib/atcacert/atcacert_date.c:166-183 | The two loops write the digits with leading zeros and nothing outside their place |
| `Decimals.StrToUint` | mcc_generated_files/cryptoauthlib/lib/atcacert/atcacert_date.c:188-229 | Succeeds exactly on ten low digits that fit 32 bits with a zero before them, catching roll-over, and gives their number |
| `CertDate.DateRoundTrip` | mcc_generated_files/cryptoauthlib/lib/atcacert/atcacert_date.c:40-100 | In every format, decoding an encoded date gives it back: always for text, and exactly for days that the calendar has for POSIX times |
| `CertDate.NoSuchDay` | mcc_generated_files/cryptoauthlib/lib/atcacert/atcacert_date.c:761-871 | 31 February 2001 is encoded, and comes back as 3 March |
| `CertDate.DateReencodes` | mcc_generated_files/cryptoauthlib/lib/atcacert/atcacert_date.c:40-100 | Encoding a decoded date gives the octets back exactly when the fields read are in range or, for POSIX times, the count is not the largest |
| `CertDate.TextRoundTrip` | mcc_generated_files/cryptoauthlib/lib/atcacert/atcacert_date.c:248-654 | The text forms of ISO 8601 and of sections 4.1.2.5.1 and 4.1.2.5.2 of RFC 5280 decode to the date encoded |
| `CertDate.TextShown` | mcc_generated_files/cryptoauthlib/lib/atcacert/atcacert_date.c:248-589 | What each text format shows of a date, octet by octet |
| `CertDate.TextShowsExactly` | mcc_generated_files/cryptoauthlib/lib/atcacert/atcacert_date.c:248-589 | Which dates each text format shows: those with every field in range and a year from 1950 to 2049, or of four digits |
| `CertDate.TextRead` | mcc_generated_files/cryptoauthlib/lib/atcacert/atcacert_date.c:312-654 | The fields shown in a format's form are read from it, in range or not, and whatever follows |
| `CertDate.TextReadOnly` | mcc_generated_files/cryptoauthlib/lib/atcacert/atcacert_date.c:312-654 | Nothing is read from a text that does not begin with that form |
| `CertDate.TextReencodes` | mcc_generated_files/cryptoauthlib/lib/atcacert/atcacert_date.c:248-654 | A text date that is read is written back as it was exactly when its fields are in range |
| `CertDate.PosixRoundTrip` | mcc_generated_files/cryptoauthlib/lib/atcacert/atcacert_date.c:873-989 | POSIX times in both octet orders give a date back exactly when the calendar has its day |
| `CertDate.PosixOctets` | mcc_generated_files/cryptoauthlib/lib/atcacert/atcacert_date.c:873-989 | The four octets of a POSIX time in either order, and what any four octets are read as |
| `CertDate.MaxDateBounds` | mcc_generated_files/cryptoauthlib/lib/atcacert/atcacert_date.c:102-161 | No date that a format encodes comes after its maximum, which it encodes itself exactly when it is not a POSIX format |
| `CertDate.MaxDatePosix` | mcc_generated_files/cryptoauthlib/lib/atcacert/atcacert_date.c:102-161 | The latest POSIX time is the last 32-bit count |
| `CertDate.CompcertRoundTrip` | mcc_generated_files/cryptoauthlib/lib/atcacert/atcacert_date.c:991-1100 | Unpacking three packed octets gives the issue date to the hour and the years |
| `CertDate.CompcertBits` | mcc_generated_files/cryptoauthlib/lib/atcacert/atcacert_date.c:991-1036 | Which dates are packed, and the 24 bits of the packed date |
| `CertDate.CompcertFields` | mcc_generated_files/cryptoauthlib/lib/atcacert/atcacert_date.c:1038-1082 | What any 24 bits are unpacked to |
| `CertDate.ExpiryIs` | mcc_generated_files/cryptoauthlib/lib/atcacert/atcacert_date.c:1084-1100 | The date of expiry is the issue date with the years added and the hour kept, or the latest of the format |
| `CertDate.CompcertRepacks` | mcc_generated_files/cryptoauthlib/lib/atcacert/atcacert_date.c:991-1100 | Packing unpacked octets gives them back exactly when they hold a month, a day and an hour |
| `CertDate.ExpiryDayExists` | mcc_generated_files/cryptoauthlib/lib/atcacert/atcacert_date.c:1084-1090 | The date of expiry, a real issue date so many years on, is a day of the calendar exactly unless it is a 29 February that its year does not have |
| `CertDate.LeapDayExpires` | mcc_generated_files/cryptoauthlib/lib/atcacert/atcacert_date.c:1084-1090 | Issued on 29 February 2020 for one year, a certificate expires on 29 February 2021 |
| `DateCode.EncDate` | mcc_generated_files/cryptoauthlib/lib/atcacert/atcacert_date.c:40-72 | Writes the date in its format, or reports the size needed and leaves the buffer alone |
| `DateCode.EncText` | mcc_generated_files/cryptoauthlib/lib/atcacert/atcacert_date.c:248-589 | The field-by-field writers write the text form or refuse the date |
| `DateCode.DecText` | mcc_generated_files/cryptoauthlib/lib/atcacert/atcacert_date.c:312-654 | The field-by-field readers read the text form or refuse it |
| `DateCode.DecDate` | mcc_generated_files/cryptoauthlib/lib/atcacert/atcacert_date.c:74-100 | Reads a date in its format or refuses it |
| `DateCode.EncPosixIn` | mcc_generated_files/cryptoauthlib/lib/atcacert/atcacert_date.c:873-989 | Writes the four octets of a POSIX time in either order |
| `CertDef.ResignKeeps` | mcc_generated_files/cryptoauthlib/lib/atcacert/atcacert_def.c:672-772 | When a new signature is set: the outer length spans exactly the new certificate, the signature reads back as given, and every octet outside the outer length and the signature is unchanged |
| `CertDef.ResignSucceeds` | mcc_generated_files/cryptoauthlib/lib/atcacert/atcacert_def.c:698-740 | In a certificate whose outer length is right, setting succeeds exactly when the signature fits the buffer and the new outer length fits the old field |
| `CertDef.ResignTooSmall` | mcc_generated_files/cryptoauthlib/lib/atcacert/atcacert_def.c:704-714 | A buffer too small is left alone, and the size reported is exactly the one needed |
| `CertDef.SetElementExactly` | mcc_generated_files/cryptoauthlib/lib/atcacert/atcacert_def.c:1526-1569 | Where an element is written, and which are refused: at its offset, and behind a serial number that tells its length by as many octets later as that is longer than the template's; nothing else changes |
| `CertDef.GetElementExactly` | mcc_generated_files/cryptoauthlib/lib/atcacert/atcacert_def.c:1571-1605 | An element is read from that place, or refused |
| `CertDef.SignatureExactly` | mcc_generated_files/cryptoauthlib/lib/atcacert/atcacert_def.c:672-772 | The signature is written and read at that place, kept in 16 bits, and is an element of a certificate of a custom form |
| `CertCode.SetSignatureIn` | mcc_generated_files/cryptoauthlib/lib/atcacert/atcacert_def.c:672-741 | The code on the buffer sets the signature, the size and the outer length as the function says, on every path |
| `CertCode.GetSignatureFrom` | mcc_generated_files/cryptoauthlib/lib/atcacert/atcacert_def.c:743-772 | Reads the signature of either kind of certificate |
| `CertCode.SetCertElement` | mcc_generated_files/cryptoauthlib/lib/atcacert/atcacert_def.c:1526-1569 | Sets an element in place at its effective offset, or refuses with the same code and changes nothing |
| `CertCode.GetCertElement` | mcc_generated_files/cryptoauthlib/lib/atcacert/atcacert_def.c:1571-1605 | Reads an element at its effective offset, or refuses with the same code |
| `CompCert.ElementReads` | mcc_generated_files/cryptoauthlib/lib/atcacert/atcacert_def.c:1526-1605 | An element that is set reads back |
| `CompCert.ElementStays` | mcc_generated_files/cryptoauthlib/lib/atcacert/atcacert_def.c:1526-1605 | Setting an element leaves every other one that shares no octet with it |
| `CompCert.SignatureStays` | mcc_generated_files/cryptoauthlib/lib/atcacert/atcacert_def.c:743-772 | Setting an element before or apart from the signature leaves the signature |
| `CompCert.DateReads` | mcc_generated_files/cryptoauthlib/lib/atcacert/atcacert_def.c:774-920 | A date that is set reads back as its format keeps it |
| `CompCert.SignerReads` | mcc_generated_files/cryptoauthlib/lib/atcacert/atcacert_def.c:945-1036 | A signer number that is set reads back |
| `CompCert.SignerWritten` | mcc_generated_files/cryptoauthlib/lib/atcacert/atcacert_def.c:945-961 | The signer's number is written in four digits, its first octet first |
| `CompCert.HexRoundTrip` | mcc_generated_files/cryptoauthlib/lib/atcacert/atcacert_def.c:922-1002 | Each octet survives its two hexadecimal digits |
| `CompCert.HexReencodes` | mcc_generated_files/cryptoauthlib/lib/atcacert/atcacert_def.c:922-1002 | Digits that are read are written back exactly when their letters are capitals |
| `CompCert.HexDigits` | mcc_generated_files/cryptoauthlib/lib/atcacert/atcacert_def.c:922-943 | The digits that are written: the high half first, letters as capitals |
| `CompCert.HexRead` | mcc_generated_files/cryptoauthlib/lib/atcacert/atcacert_def.c:963-1002 | Exactly the pairs of digits, with letters of either case, are read as an octet |
| `CompCert.CompCertRoundTrip` | mcc_generated_files/cryptoauthlib/lib/atcacert/atcacert_def.c:1338-1469 | A compressed certificate that was set, in a certificate whose parts share no octet, is given back octet for octet exactly when it is faithful to the definition: its years to expiry, its last octet, the values that stand for missing parts, and a real day for a POSIX issue date |
| `CompCert.CompCertSet` | mcc_generated_files/cryptoauthlib/lib/atcacert/atcacert_def.c:1338-1412 | What a certificate says after a compressed one was set: its signature is octets 0 to 63, its date of issue is in octets 64 to 66, and its signer is octets 67 and 68 |
| `CompCert.CompCertOctets` | mcc_generated_files/cryptoauthlib/lib/atcacert/atcacert_def.c:1414-1469 | What the compressed certificate says of any certificate that gives one: signature, date of issue to the hour or 1 January 2000, years to expiry, signer or zeros, and the numbers of template, chain and serial number source |
| `CompCert.CompCertTaken` | mcc_generated_files/cryptoauthlib/lib/atcacert/atcacert_def.c:1338-1412 | A compressed certificate is taken exactly when its form is known, it goes with the definition, its signature can be set, and the certificate has room for its dates in their formats and for its signer |
| `CompCert.ExpiryReads` | mcc_generated_files/cryptoauthlib/lib/atcacert/atcacert_def.c:1388-1404 | After a compressed certificate is set, the date of expiry reads back as the issue date so many years later, or the latest of the format: always in text, and in a POSIX format exactly when the calendar has the day; of a real issue date it has the day exactly unless it is a 29 February of a common year |
| `CompCert.PartsRead` | mcc_generated_files/cryptoauthlib/lib/atcacert/atcacert_def.c:1388-1409 | After the parts are set, the signature is untouched and both dates and the signer read back |
| `CompCert.DatesGivenBack` | mcc_generated_files/cryptoauthlib/lib/atcacert/atcacert_def.c:1435-1453 | The three octets of dates come back exactly when the date kept in the certificate is the one they held |
| `CompCert.NoExpiryNeedsText` | mcc_generated_files/cryptoauthlib/lib/atcacert/atcacert_def.c:1388-1400 | A compressed certificate without expiry is never accepted when the date of expiry is an element in a POSIX format |
| `CertCode.SetDateIn` | mcc_generated_files/cryptoauthlib/lib/atcacert/atcacert_def.c:774-880 | Sets a date element in place, or nothing when there is none |
| `CertCode.GetDateFrom` | mcc_generated_files/cryptoauthlib/lib/atcacert/atcacert_def.c:808-920 | Reads a date element |
| `CertCode.SetSignerIdIn` | mcc_generated_files/cryptoauthlib/lib/atcacert/atcacert_def.c:945-961 | Sets the signer's four digits in place |
| `CertCode.GetSignerIdFrom` | mcc_generated_files/cryptoauthlib/lib/atcacert/atcacert_def.c:1004-1036 | Reads the signer's four digits |
| `CertCode.SetCompCertIn` | mcc_generated_files/cryptoauthlib/lib/atcacert/atcacert_def.c:1338-1412 | Takes a compressed certificate apart into the certificate, on every path as the function says |
| `CertCode.GetCompCertFrom` | mcc_generated_files/cryptoauthlib/lib/atcacert/atcacert_def.c:1414-1469 | Puts the compressed certificate together from the certificate |
| `DeviceLocs.AllCovered` | mcc_generated_files/cryptoauthlib/lib/atcacert/atcacert_def.c:119-213 | When the list is complete and every merge on the way has a span within 16 bits, every place of the definition is matched by an entry, whatever was covered still is, and the count stays within its maximum |
| `DeviceLocs.EndsFit` | mcc_generated_files/cryptoauthlib/lib/atcacert/atcacert_def.c:38-117 | Rounded ends within 16 bits are enough for that |
| `DeviceLocs.MergeCovers` | mcc_generated_files/cryptoauthlib/lib/atcacert/atcacert_def.c:38-117 | One merge whose span fits 16 bits covers its location and all that was covered before |
| `DeviceLocs.MergeIs` | mcc_generated_files/cryptoauthlib/lib/atcacert/atcacert_def.c:38-117 | What a merge makes of the list: the first entry of the same zone, slot and way of reading that the location, rounded outwards to whole blocks, touches grows to hold it, or the rounded location is added if there is room |
| `DeviceLocs.MergeExactly` | mcc_generated_files/cryptoauthlib/lib/atcacert/atcacert_def.c:55-97 | A merge into an entry covers both the location and what the entry was exactly when their span fits 16 bits, and leaves every other entry alone |
| `DeviceLocs.LongMergeUncovers` | mcc_generated_files/cryptoauthlib/lib/atcacert/atcacert_def.c:55-97 | Ten octets merged in blocks of 32 into an entry of 65535 uncover that entry |
| `DeviceLocs.AppendCovers` | mcc_generated_files/cryptoauthlib/lib/atcacert/atcacert_def.c:101-114 | A location with an entry of its own is covered by it exactly when its rounded span fits 16 bits |
| `DeviceLocs.LongSpanUncovered` | mcc_generated_files/cryptoauthlib/lib/atcacert/atcacert_def.c:101-114 | 65535 octets in blocks of 32 are stored with a count of zero, and are not covered |
| `DeviceLocs.MatchCopies` | mcc_generated_files/cryptoauthlib/lib/atcacert/atcacert_def.c:215-250 | On a device with octets of its own for each zone, and in the data zone for each slot and way of reading: what is copied out of the data read for an entry that matches is what stands at the location asked for, in its own zone, slot and way of reading |
| `DeviceLocs.MatchExactly` | mcc_generated_files/cryptoauthlib/lib/atcacert/atcacert_def.c:215-250 | A place matches an entry exactly when it lies in it and has its zone, and in the data zone its slot and way of reading |
| `DeviceLocs.MergeKeepsStores` | mcc_generated_files/cryptoauthlib/lib/atcacert/atcacert_def.c:62-114 | A merge leaves the zone, slot and way of reading of every entry, and a new entry has those of the location |
| `DeviceLocs.SlotsStayApart` | mcc_generated_files/cryptoauthlib/lib/atcacert/atcacert_def.c:72-75 | Locations in different slots are never merged and never match |
| `DeviceLocs.NeededExactly` | mcc_generated_files/cryptoauthlib/lib/atcacert/atcacert_def.c:119-213 | The places asked for: compressed certificate, serial number, public key, every element, and octets 0 to 12 of the configuration zone exactly for the four sources computed from the device's serial number |
| `DeviceLocs.MergeDeviceLoc` | mcc_generated_files/cryptoauthlib/lib/atcacert/atcacert_def.c:38-117 | The search and the update in place merge as the function says |
| `DeviceLocs.GetDeviceLocs` | mcc_generated_files/cryptoauthlib/lib/atcacert/atcacert_def.c:119-213 | Merges the compressed certificate, serial number, public key, all elements, and the device serial number where its source needs it, up to the first failure |
| `UsartRings.Receiver.RxIsr` | mcc_generated_files/src/usart2.c:60-80 | A received byte is put behind all others, or dropped exactly when 63 wait; no byte that waits or is being read is overwritten |
| `UsartRings.Receiver.Read` | mcc_generated_files/src/usart2.c:157-174 | With receive interrupts between its statements, a byte returned is the next in the order received: none lost, doubled or overwritten before it is read |
| `UsartRings.Receiver.Take` | mcc_generated_files/src/usart2.c:164-173 | The tail moves before the slot is read, and the slot is still intact then |
| `UsartRings.Receiver.CountIsDistance` | mcc_generated_files/src/usart2.c:46-49 | At rest the element counter is the distance from tail to head around the ring |
| `UsartRings.Transmitter.UdreIsr` | mcc_generated_files/src/usart2.c:82-102 | Sends the oldest byte, and switches itself off exactly when none is left |
| `UsartRings.Transmitter.Write` | mcc_generated_files/src/usart2.c:176-194 | With transmit interrupts between its statements, the byte is put behind all others, none that waits is overwritten, and the interrupt is enabled while bytes wait |
| `UsartRings.Transmitter.Drain` | mcc_generated_files/src/usart2.c:82-102 | Left to itself, the interrupt sends every byte that waits, in order, and stops |
| `Rings.SlotsApart` | mcc_generated_files/src/usart2.c:68-77 | Bytes fewer than a ring apart never share a slot |
| `ExchangeBuffer.OrderKept` | mcc_generated_files/mqtt/mqtt_exchange_buffer/mqtt_exchange_buffer.c:36-95 | However writes and reads interleave, what comes out followed by what is left is what was there followed by what was accepted |
| `ExchangeBuffer.Buffer.Write` | mcc_generated_files/mqtt/mqtt_exchange_buffer/mqtt_exchange_buffer.c:36-59 | From any wrapped state, appends exactly the longest prefix that fits, and always answers with the length asked for |
| `ExchangeBuffer.Buffer.Read` | mcc_generated_files/mqtt/mqtt_exchange_buffer/mqtt_exchange_buffer.c:79-95 | Takes out and returns the oldest bytes, as many as asked for or as there are |
| `ExchangeBuffer.Buffer.Peek` | mcc_generated_files/mqtt/mqtt_exchange_buffer/mqtt_exchange_buffer.c:61-77 | Agrees with a read whenever the bytes do not cross the end of the array |
| `MqttFrames.RemainingRoundTrip` | mcc_generated_files/mqtt/mqtt_core/mqtt_core.c:583-615 | Every length below 2^28 decodes from its encoding, whatever follows it |
| `MqttFrames.RemainingForms` | mcc_generated_files/mqtt/mqtt_core/mqtt_core.c:583-599 | The octets of every length below 2^28 |
| `MqttFrames.ConnectRoundTrip` | mcc_generated_files/mqtt/mqtt_core/mqtt_core.c:387-433 | A CONNECT frame whose body fits 16 bits reads back as what was asked for, credentials included, by a reader of section 3.1 of MQTT 3.1.1 |
| `MqttFrames.ConnectOctets` | mcc_generated_files/mqtt/mqtt_core/mqtt_core.c:387-433 | The octets of CONNECT, for clients with and without a login |
| `MqttFrames.PublishRoundTrip` | mcc_generated_files/mqtt/mqtt_core/mqtt_core.c:445-482 | A PUBLISH frame reads back as what was asked for exactly at quality of service 0 and 1, and is malformed otherwise |
| `MqttFrames.PublishOctets` | mcc_generated_files/mqtt/mqtt_core/mqtt_core.c:445-482 | The octets of PUBLISH, flag by flag |
| `MqttFrames.PublishLength` | mcc_generated_files/mqtt/mqtt_core/mqtt_core.c:466-475 | The length field is that of the body exactly at quality of service 0 and 1, for bodies within 16 bits |
| `MqttFrames.SubscribeRoundTrip` | mcc_generated_files/mqtt/mqtt_core/mqtt_core.c:484-520 | A SUBSCRIBE frame reads back as what was asked for exactly when both requested qualities of service exist |
| `MqttFrames.SubscribeOctets` | mcc_generated_files/mqtt/mqtt_core/mqtt_core.c:484-520 | The octets of SUBSCRIBE |
| `MqttFrames.ConnectLength` | mcc_generated_files/mqtt/mqtt_core/mqtt_core.c:423-428 | The length field of CONNECT is that of the body exactly when the body fits 16 bits |
| `MqttClient.SentReadsBack` | mcc_generated_files/mqtt/mqtt_core/mqtt_core.c:522-581 | Whatever frame fits the transmit buffer reads back as the packet that was created |
| `MqttClient.EncodeLength` | mcc_generated_files/mqtt/mqtt_core/mqtt_core.c:583-599 | The digit loop writes the length in at most three octets |
| `MqttClient.DecodeLength` | mcc_generated_files/mqtt/mqtt_core/mqtt_core.c:601-615 | The digit loop reads a length of at most four octets |
| `MqttClient.Client.CreateConnect` | mcc_generated_files/mqtt/mqtt_core/mqtt_core.c:387-443 | Keeps the packet and the length of its body |
| `MqttClient.Client.CreatePublish` | mcc_generated_files/mqtt/mqtt_core/mqtt_core.c:445-482 | When connected: keeps the packet, without a duplicate flag at quality of service 0; otherwise the packet is zero |
| `MqttClient.Client.CreateSubscribe` | mcc_generated_files/mqtt/mqtt_core/mqtt_core.c:484-520 | When connected: keeps the packet and the length of its body; otherwise the packet is zero |
| `MqttClient.Client.SendConnect` | mcc_generated_files/mqtt/mqtt_core/mqtt_core.c:522-550 | The transmit buffer holds the frame, or as much of its front as fits |
| `MqttClient.Client.SendPublish` | mcc_generated_files/mqtt/mqtt_core/mqtt_core.c:552-581 | The transmit buffer holds the frame, or as much of its front as fits |
| `MqttClient.Client.SendSubscribe` | mcc_generated_files/mqtt/mqtt_core/mqtt_core.c:928-954 | The transmit buffer holds the frame, or as much of its front as fits |
| `MqttClient.Client.ProcessPublish` | mcc_generated_files/mqtt/mqtt_core/mqtt_core.c:697-748 | For frames at quality of service 0 with a length field of one octet, the topic and payload that were sent |
| `MqttClient.TopicLengthExactly` | mcc_generated_files/mqtt/mqtt_core/mqtt_core.c:715-724 | The two octets taken for the length of the topic are that length exactly when the length field is one octet, for topics shorter than 32768 octets |
| `MqttClient.LongPublishMisread` | mcc_generated_files/mqtt/mqtt_core/mqtt_core.c:715-724 | With a topic of one octet and a payload of 200, the topic is taken to have 256 octets |
| `TwiMaster.WriteShape` | mcc_generated_files/src/twi0.c:296-332 | For any replies, a write puts one address octet more than were refused on the bus, then a prefix of the payload, then a stop; the prefix is the whole payload unless an octet of it was refused or the run is not over |
| `TwiMaster.RefusalsExactly` | mcc_generated_files/src/twi0.c:304-316 | The refusals counted are the replies before the first that acknowledges the address |
| `TwiMaster.OctetsExactly` | mcc_generated_files/src/twi0.c:359-378 | Of the payload, every octet sent but the last is acknowledged; the last is refused, unanswered or the end of the payload, and the stop follows once it is answered |
| `TwiMaster.WriteOnce` | mcc_generated_files/src/twi0.c:304-316 | Without the wish to send the address again, the same with one address octet, and a stop behind it when it is refused |
| `TwiMaster.Master.Write` | mcc_generated_files/src/twi0.c:226-259 | The driver puts exactly the transcript of a write on the bus, and reports no failure at its end whatever the replies were |
| `TwiMaster.Master.Isr` | mcc_generated_files/src/twi0.c:491-513 | Each interrupt adds to the bus what the transcript has next |
| `TwiMaster.Master.Transmit` | mcc_generated_files/src/twi0.c:359-378 | An acknowledged octet is followed by the next one, a refused one by a stop; the length never goes below zero |
| `TwiMaster.Master.Complete` | mcc_generated_files/src/twi0.c:410-438 | At the end of a buffer the callback stops the run or lets its own buffer follow |
| `TwiMaster.Master.RefusedAddress` | mcc_generated_files/src/twi0.c:304-316 | A refused address is sent again when the caller asked for that, and otherwise followed by a stop |
| `TwiMaster.WriteRegister` | mcc_generated_files/drivers/i2c_simple_master.c:31-46 | On the bus, the register's octet and then the data |
| `JsonLookup.GetValue` | json.c:55-89 | On any text, the loops find what the scan on pointers finds, the place of a value or nothing, and read behind the end of the text exactly when it does |
| `JsonLookup.ObjectLookup` | json.c:55-89 | For every non-empty flat object, in any white space, with escapes in keys and strings and with signs and points in numbers, and keys sought that are clear of the pairs before: the value of the first such key, also when the key sought begins a longer key or is the text of a value. The lookup is right exactly when no number with a sign or a point comes before that pair, or no pair has the key |
| `JsonLookup.FoundBehindKey` | json.c:55-89 | In any text, well formed or not, what a lookup finds stands behind the key in quotes and a colon, with only white space around the colon, and begins with something else than white space or a closing brace |
| `JsonLookup.PlainIsClear` | json.c:60-69 | A key without quotes is clear of every stored key without quotes and backslashes |
| `JsonLookup.QuoteBehindKey` | json.c:60-68 | Where the key sought and a quote begin the text behind an opening quote without being the key there, the lookup is right exactly when no colon and value follow and no later pair has the key |
| `JsonLookup.QuotedKeyMisleads` | json.c:60-68 | In {"a":1,"b":2} the lookup of a":1,"b gives the value 2, although no pair has that key |
| `JsonLookup.EscapedKeyHides` | json.c:60-73 | In {"a\"b":1,"a":2} the lookup of a gives nothing, although a pair has that key |
| `JsonLookup.SignHides` | json.c:82-86 | In {"a":-1,"b":2} the lookup of b gives nothing, although a pair has that key |
| `JsonLookup.OverrunHarmless` | json.c:60-73 | A key that is not clear can still be looked up rightly |
| `JsonLookup.EmptyObject` | json.c:59-60 | In an object without pairs, with no quote behind it, the scan runs over the end of the text |
| `JsonLookup.FindQuote` | json.c:33-43 | Finds the first quote that no backslash takes with it, or the end |
| `JsonLookup.QuoteAfter` | json.c:33-43 | Over the inside of any string with escapes, that quote is the closing one |
| `JsonLookup.WordEnds` | json.c:84-86 | A run of ASCII letters and digits is passed exactly when none of them follows |
| `JsonLookup.BlanksEnd` | json.c:45-53 | A run of blanks, tabulators, line feeds and carriage returns is passed exactly when none of them follows |
| `JsonLookup.GetInt` | json.c:92-116 | Looks the key up and reads the digits at the value, or behind its quote, modulo 2^32 |
| `JsonLookup.IntOfDecimal` | json.c:92-108 | A number in decimal is read as it is, modulo 2^32, behind a quote or not, up to the first character that is no digit |
| `JsonLookup.IntOfObject` | json.c:110-116 | From an object: the leading digits of the value of the pair that the scan reaches, modulo 2^32 |
| `JsonLookup.GetString` | json.c:118-125 | Looks the key up and gives the place behind the first character of the value and the distance to the next free quote, modulo 256 |
| `JsonLookup.StringOfObject` | json.c:118-125 | From an object: of a string its inside and its length modulo 256; of a number or a word all but its first character, with a length beyond the value and its white space |
| `JsonLookup.GetBool` | json.c:127-137 | Looks the key up and compares the text at the value |
| `JsonLookup.BoolOfObject` | json.c:127-137 | From an object: read from a word that begins with true or false, and from nothing else |

## Left out

- Register, pin, ADC, SPI, sleep, watchdog and clock code, the network and cloud layers, the command line, and the NeoPixel driver: no algorithm to prove.
- SHA, ECDSA verification, JWT and the device HAL: their code is not part of this model; so are the serial numbers and key identifiers that are hashes.
- Setting a serial number of variable length, and the building of a certificate from device data: only the effective offset that such a number causes is modelled.
- NULL arguments and the BAD_PARAMS they are answered with: the model's arguments are never null, except where null asks for a size.
- Widths of `size_t` and `int`: sizes are unbounded numbers here; the 32-bit, 16-bit and 8-bit quantities that the code itself declares are wrapped or truncated as it does. `unsigned` sums of DER sizes are taken in 32 bits.
- What a refused date, a failed decoding or a failed digit conversion leaves in its output: only the status is modelled there.
- Wrap of 32-bit scheduler time: the scheduler's methods take times as unbounded numbers, and `SchedulerSpec.RebaseExactly` says what the wrap does to one creation. Stopwatch mode is left out.
- Scheduler.TimerScheduler.Preempt: passes over an interrupt that finds the active list empty, which the code would answer by reading through a null pointer; from an armed state none does, and `SchedulerSpec.ArmedExactly` says after which sections the state is not armed.
- Scheduler.TimerScheduler.CallNextCallback: the callback is reduced to its answer; what else it does with timers would be further operations of the run.
- Scheduler.TimerScheduler.Create: no bound on how late a timer expires, since the reload counts from the last timeout and not from now. Within a masked section the counter stands still.
- CertCode.SetCertElement: an element that a serial number would move before the start of the certificate is refused, where the code would write outside the buffer.
- DateCode.EncText: the three writers of text dates, which are alike but for separators and year, are one method, and so are the three readers.
- UsartRings.Receiver.Read: gives up after a given number of looks at an empty ring instead of waiting for ever; `UsartRings.Transmitter.Write` likewise at a full one.
- ExchangeBuffer.Buffer.Peek: only for bytes that do not cross the end of the array, past which the code reads memory it does not own.
- MqttClient.Client.ProcessPublish: only for length fields of one octet; `MqttClient.TopicLengthExactly` says what becomes of the topic's length in longer ones. The search for the handler of a topic is left out.
- MqttClient.Client.SendPublish: stops before the network; the flags that say which packet is to be sent next, and the connection's state machine beyond the state that creation looks at, are left out.
- MqttFrames.ReadPacket: does not check that strings are UTF-8 or that topics are not empty.
- TwiMaster.Master.Isr: reads, collisions, bus errors and timeouts are left out; the callbacks are those of register and buffer writes.
- JsonLookup.ObjectLookup: objects are flat and not empty, and values are strings with escapes, numbers, or words. That the key sought is clear is enough and not needed (`JsonLookup.OverrunHarmless`); where it is not clear and no quote follows it, what the lookup finds is a matter of the text behind, which only `JsonLookup.GetValue` covers.
- DeviceLocs.AllCovered: alignment and disjointness of entries are not claimed, since the code keeps neither.
- DerInteger.DecInteger: the two queries without a buffer, for both sizes or for one, are one query.
