# OPOS service objects and tools: a model and its proofs

Two OPOS service objects drive a magnetic card reader and an electronic lock; a set of header
files supplies the codecs and file operations they and their neighbours use. This project models
the logic of both and proves what it keeps. Each module follows one component:

- `FolderRemoval`: removing the contents of a folder, on a tree of files and folders in which
  only empty folders can be removed. The order by falling number of backslashes is what makes
  it work; the exact condition for an empty result is proved.
- `PacketFraming`: a request cut into 65-byte HID reports, and a receiver that puts it together.
- `CardParser`: the scans that separate the fields of ISO/IEC 7813 tracks 1 and 2. The fields
  are defined on their own (`Track1`, `Track2`), the character loops are proved to find them,
  and printing a card and parsing it is proved to give the card back.
- `CardReader`: the way of a swipe from packing three tracks into one buffer, over unpacking in
  place and the error policy, to the event that is submitted and the fields that are parsed.
- `Events`, `MsrEventQueue`, `LockEventQueue`: the two event queues. They differ in one
  negation (`opos/OposLpu230/FireEvent.cpp:269`, `opos/OposLpu230Lock/FireEvent.cpp:185`): the
  lock's queue delivers in order, the reader's does not always.
- `Delivery`: the reader's queue and its track strings together, over runs of swipes, failed
  transfers and calls of the queue, composed of the functions that their methods are proved
  against: when an event finds the strings of its own swipe.
- `MsrWorker`: opening, closing, reading, failing, recovering, suspending and resuming, as steps
  of the application thread, the worker thread and the power callbacks.
- `LockShare`: the device all lock objects share, its open counter, and the queue of waiters.
- `Bcd`, `HexText`, `MultiString`, `Tokenizer`, `Utf8`, `Version`: codecs and scanners.
- `Bytes`, `Sequences`, `Wrappers`: bytes, cutting a sequence at given elements, an option type.

Where the code works by changing fields or buffers, the model is a class or a method with loops,
proved against a function of its inputs or of the old state; the theorems are about these
functions. State machines have a `Step` datatype and a `Next` function; each method of the class
makes exactly one of these steps, and runs are sequences of steps.

What comes from outside is a parameter: whether a device is listed and opens, what a driver call
returns, how a filter pattern matches, what the application answers to an event. One application
thread is assumed, whose calls do not overlap and which goes on when its request has been
handled; what happens when it goes on after the two-second limit is stated separately.

What the proofs found in the code, each with the exact condition under which it happens:

- The reader's queue lets a new event go past one that waits, so that events arrive out of order
  (`MsrEventQueue.InOrderExactly`, `MsrEventQueue.OutOfOrder`); and the error response acted on
  after a submission is the answer to an earlier event unless the new one was delivered
  (`MsrEventQueue.FireEvent.Fire`).
- An event that waited finds the strings of another swipe, or none, exactly when a later swipe went
  past it or was not reported, or an answer "clear" was acted on meanwhile, even one that was given
  to an earlier event (`Delivery.FindsOwnExactly`, `Delivery.EmptiedBeforeRead`). Where every swipe
  is reported and nothing is answered with "clear", all events find their own strings exactly when
  they arrive in order (`Delivery.InOrderIsOwn`).
- The string of a track has the length its Data event announces exactly when its characters are
  free of NULs and it is not emptied because reporting is card-level and some track failed
  (`CardReader.DataEventHasItsText`). Both failures occur: a failed track that is not selected
  empties all strings (`CardReader.LostText`), and a raw 0 cuts one when decoding is off
  (`CardReader.CutText`).
- Closing the reader without an answer from the worker leaves it open on a null handle, and some
  run from there on leaves the safe states, exactly when the request to leave was not handled
  (`MsrWorker.CloseWithoutAnswer`); opening it without an answer does no such harm
  (`MsrWorker.OpenWithoutAnswer`). Closing it during recovery leaves the worker reading from a
  null handle, exactly if a read was due at that time (`MsrWorker.ClosedReadsExactly`,
  `MsrWorker.DueExactly`, `MsrWorker.ReadsWithoutDevice`).
- Releasing or clearing a claimed reader after an open that went on early drops the request, and
  leaves it shut until the next close (`MsrWorker.ShutExactly`).
- Over USB the error branch behind a read never runs, as the last error is reset before it is
  tested; the worker starts to recover exactly when a resume does not find the reader
  (`MsrWorker.UsbNeedsResume`).
- A first open of the lock that fails leaves the share counted as open for good
  (`LockShare.LeakIsForever`). The share is silent until the last close exactly when some callback
  ended in an error other than a cancellation, or could not set up the next wait
  (`LockShare.SilencedExactly`, `LockShare.DeafAfterCallback`).
- The BCD decoder guards the multiplication, not the addition; which codes that lets through is
  stated in general (`Bcd.JustOverTheMaximum`, `Bcd.GuardedExactly`).
- The UTF-8 recogniser does not end on some buffers (`Utf8.EndsExactly`).
- Hexadecimal text does not come back for separators that repeat two digits
  (`HexText.RoundTripExactly`).

Run `dafny verify dfyconfig.toml` to verify the project.

## Model

| member | source | states |
|---|---|---|
| FolderRemoval.BackslashesAreDepth | opos/code_tools/ct_file.h:1024-1042 | the number the sort compares is the depth of the path, up to a constant of its prefix |
| FolderRemoval.CountBackslashes | opos/code_tools/ct_file.h:1025-1036 | the counting loop finds the number of backslashes |
| FolderRemoval.Volume.FindFileList | opos/code_tools/ct_file.h:769-832 | lists each file, and folder if wanted, that passes the filter within the area, exactly once, for every tree, filter and depth |
| FolderRemoval.Volume.FindSubFolderList | opos/code_tools/ct_file.h:834-889 | lists each folder below that the walk reaches, exactly once |
| FolderRemoval.FoundThrough | opos/code_tools/ct_file.h:803-827 | what is found through one entry is that entry and what is found below it |
| FolderRemoval.Volume.SortDeepestFirst | opos/code_tools/ct_file.h:1024-1042 | the same paths, once each, by falling number of backslashes |
| FolderRemoval.Volume.DeleteFiles | opos/code_tools/ct_file.h:1004-1009 | all listed files but the read-only ones are gone; true exactly when none is read-only |
| FolderRemoval.Volume.RemoveFolders | opos/code_tools/ct_file.h:1044-1053 | in that order each folder goes unless something under it is not to be removed; true exactly when all went |
| FolderRemoval.Volume.RemoveFolderContents | opos/code_tools/ct_file.h:980-1057 | result and tree after a removal, for every tree, filter and mode |
| FolderRemoval.StuckWhenTried | opos/code_tools/ct_file.h:1024-1053 | deepest first, a folder is empty at its turn exactly when nothing under it stays |
| FolderRemoval.NothingElseTouched | opos/code_tools/ct_file.h:980-1057 | whatever the filter and mode, nothing outside the folder changes |
| FolderRemoval.SuccessExactly | opos/code_tools/ct_file.h:980-1057 | a full removal is reported as successful exactly when no visible file is read-only and no name that is stepped over stands below the first level; then only such names of the first level are left |
| FolderRemoval.EmptiesExactly | opos/code_tools/ct_file.h:980-1057 | success with nothing left exactly when below the folder there is no read-only file and no name of one or two characters that starts with a period |
| PacketFraming.SendRequest | opos/OposLpu230/SoMsr.cpp:876-992 | writes the reports of the request in order, up to the first write that fails; true exactly when all were written |
| PacketFraming.PacketIsReport | opos/OposLpu230/SoMsr.cpp:920-972 | the first packet and each later one are the report due, with ID 0 and zeros behind the data |
| PacketFraming.NextPacket | opos/tylenol/Tylenol.cpp:259-286 | one round of the partial send takes the next 64 bytes |
| PacketFraming.PayloadIsMessage | opos/OposLpu230/SoMsr.cpp:895-988 | the payloads joined are command, sub-command, length, data and zeros |
| PacketFraming.ReceivedExactly | opos/OposLpu230/SoMsr.cpp:895-988 | a receiver that reads the length byte recovers the request exactly when it has at most 255 data bytes |
| CardParser.ScanTrack1 | opos/OposLpu230/SoMsr.cpp:1457-1552 | the character loop finds the fields of track 1 as defined by the separators, for every text |
| CardParser.ScanTrack2 | opos/OposLpu230/SoMsr.cpp:1554-1605 | the same for track 2 |
| CardParser.ScanName | opos/OposLpu230/SoMsr.cpp:1483-1538 | one character moves the name automaton so that the name it will end with stays the same |
| CardParser.NameRoundTrip | opos/OposLpu230/SoMsr.cpp:1483-1538 | surname, first name, middle initial and title come back from their printed form exactly when each is free of what ends it |
| CardParser.Track1RoundTrip | opos/OposLpu230/SoMsr.cpp:1457-1552 | from a printed track 1, with a country code exactly when the PAN starts with 59, name and discretionary data come back exactly when the name would and nothing read holds the separator |
| CardParser.Track2RoundTrip | opos/OposLpu230/SoMsr.cpp:1554-1605 | a printed track 2 comes back exactly when the PAN has at most 20 characters and nothing holds the separator; a longer PAN leaves every field empty |
| CardReader.AddInPlace | opos/OposLpu230/SoMsr.cpp:1166-1177 | one stretch of the buffer is shifted, the rest stays |
| CardReader.GetMsrData | opos/OposLpu230/SoMsr.cpp:2004-2052 | sizes and packed buffer after reading three tracks, and whether to fire |
| CardReader.Reader.SaveTracks | opos/OposLpu230/SoMsr.cpp:1157-1207 | strings, errors, codes and buffer after the loop over the tracks |
| CardReader.Reader.SaveMsrData | opos/OposLpu230/SoMsr.cpp:1132-1219 | strings under the error policy, codes, decoded buffer and parsed fields, for all sizes and settings |
| CardReader.Reader.ParsingCardData | opos/OposLpu230/SoMsr.cpp:1408-1605 | the parser shifts the first two tracks itself exactly when decoding is off, and parses what it then sees |
| CardReader.Reader.Fire | opos/OposLpu230/SoMsr.cpp:1221-1347 | the event submitted and the strings kept or cleared, for every outcome |
| CardReader.Reader.ErrorProcess | opos/OposLpu230/SoMsr.cpp:1349-1374 | only the clear response empties strings, errors and codes |
| CardReader.ErrorCode | opos/OposLpu230/SoMsr.cpp:1377-1405 | a code is negative exactly when the hardware code is, and lengths pass through |
| CardReader.PackThenSave | opos/OposLpu230/SoMsr.cpp:1132-1195 | for every mask, a selected track comes out as swiped up to its first NUL, between percent sign or semicolon and question mark if sentinels are on; others come out empty |
| CardReader.PackThenSaveExactly | opos/OposLpu230/SoMsr.cpp:2004-2052 | with decoding on, all tracks selected and no sentinels, packing and saving is the identity exactly when no track is longer than 127 or holds a NUL |
| CardReader.RawText | opos/OposLpu230/SoMsr.cpp:1166-1185 | with decoding off a string ends before the first space of track 1, or digit 0 of the others |
| CardReader.StatusOfEvent | opos/OposLpu230/SoMsr.cpp:1221-1299 | a Data event exactly when no selected track failed, with the length of each selected track in its byte and 0 for the others; track-level errors hold the codes of the failed tracks |
| CardReader.DataEventHasItsText | opos/OposLpu230/SoMsr.cpp:1208-1264 | with a Data event, the string of each selected track that has data is as long as its byte of the status says (two more with sentinels), and is its whole text, exactly when that text is free of NULs and reporting is not card-level or no track failed; a track that failed is then not selected |
| CardReader.LostText | opos/OposLpu230/SoMsr.cpp:1208-1264 | a Data event of five characters with all strings empty |
| CardReader.CutText | opos/OposLpu230/SoMsr.cpp:1166-1185 | a Data event of three characters with decoding off, of which the string shows one |
| CardReader.ParserSees | opos/OposLpu230/SoMsr.cpp:1425-1445 | the parser sees the swiped characters unless decoding is on and passed the track over |
| CardReader.SwipeGivesTrack1 | opos/OposLpu230/SoMsr.cpp:1425-1552 | a swiped card gives its name and discretionary data exactly when decoding is off or track 1 is selected, and they come back from the printed track |
| CardReader.SwipeGivesTrack2 | opos/OposLpu230/SoMsr.cpp:1425-1605 | the same for the fields of track 2, with their exact condition |
| LockEventQueue.FireEvent.Fire | opos/OposLpu230Lock/FireEvent.cpp:178-209 | a submission is one step of the queue of one place |
| LockEventQueue.FireEvent.FireQ | opos/OposLpu230Lock/FireEvent.cpp:149-176 | draining delivers what waits unless frozen |
| LockEventQueue.FireEvent.EnQ | opos/OposLpu230Lock/FireEvent.cpp:211-222 | whatever was queued, only the new event is |
| LockEventQueue.FireEvent.SetFreezeEvents | opos/OposLpu230Lock/FireEvent.h:116-123 | the drain loop ends with an empty queue |
| LockEventQueue.FireEvent.ClearQ | opos/OposLpu230Lock/FireEvent.h:141-146 | nothing waits any more |
| LockEventQueue.EveryRun | opos/OposLpu230Lock/FireEvent.cpp:149-238 | over every run: the delivered events are exactly those whose own history says so, in order of submission; nothing waits unless frozen; at most one event waits |
| LockEventQueue.HeldIsNewest | opos/OposLpu230Lock/FireEvent.cpp:211-222 | only the newest submitted event survives a freeze |
| LockEventQueue.DeliveredInOrder | opos/OposLpu230Lock/FireEvent.cpp:178-209 | delivered events are strictly increasing and each was submitted, so none comes twice |
| MsrEventQueue.FireEvent.Fire | opos/OposLpu230/FireEvent.cpp:257-299 | a submission is one step; the last error response is that of the event exactly if it was delivered, otherwise an earlier one |
| MsrEventQueue.FireEvent.FireQ | opos/OposLpu230/FireEvent.cpp:226-255 | draining delivers through the open gate, and closes it unless the event is an error |
| MsrEventQueue.FireEvent.EnQ | opos/OposLpu230/FireEvent.cpp:301-312 | the new event supersedes what was queued |
| MsrEventQueue.FireEvent.SetDataEventEnable | opos/OposLpu230/FireEvent.h:144-147 | sets the gate and delivers nothing |
| MsrEventQueue.FireEvent.ClearQ | opos/OposLpu230/FireEvent.h:171-176 | what waits is cleared |
| MsrEventQueue.NothingWhileFrozen | opos/OposLpu230/FireEvent.cpp:226-299 | in every run what is delivered comes through an open gate call by call, and no call that comes while events are frozen delivers |
| MsrEventQueue.StaysDisabled | opos/OposLpu230/FireEvent.cpp:226-299 | only the application enables data events again |
| MsrEventQueue.ReenableBetween | opos/OposLpu230/FireEvent.cpp:226-299 | between two deliveries the application enables data events, unless the first was an error event from the queue |
| MsrEventQueue.ErrorKeepsGateOpen | opos/OposLpu230/FireEvent.cpp:241-242 | that exception occurs |
| MsrEventQueue.EachEventOnce | opos/OposLpu230/FireEvent.cpp:226-328 | every submitted event is exactly once among delivered, superseded, cleared and waiting |
| MsrEventQueue.InOrderExactly | opos/OposLpu230/FireEvent.cpp:257-299 | delivery is in order of submission exactly when no overtaken event is delivered |
| MsrEventQueue.OutOfOrder | opos/OposLpu230/FireEvent.cpp:269-291 | four calls after which the second event came before the first |
| Delivery.FindsOwnExactly | opos/OposLpu230/SoMsr.cpp:1132-1374 | over every run, the event of a swipe finds its own strings when it is delivered at once; one that waited does exactly when since no swipe was saved that went past it or was not reported, no error that went past it was answered with "clear", and it was not itself an error held while the last answer was "clear" |
| Delivery.StringsOfDelivery | opos/OposLpu230/SoMsr.cpp:1132-1374 | the strings shown with an event are those of its swipe, or if they were lost those of a later swipe or none |
| Delivery.NotReportedExactly | opos/OposLpu230/SoMsr.cpp:1221-1347 | a swipe is saved without an event exactly when a selected track failed and reporting of errors of its kind is off |
| Delivery.InOrderIsOwn | opos/OposLpu230/FireEvent.cpp:226-299 | where every swipe is reported and nothing is answered with "clear", all events find their own strings exactly when they are delivered in order of submission |
| Delivery.EmptiedBeforeRead | opos/OposLpu230/SoMsr.cpp:1289-1374 | a run in which the strings of an error are emptied before it is delivered, because of the answer to another |
| MsrWorker.Msr.OpenService | opos/OposLpu230/SoMsr.cpp:659-737 | opening up to the wait is one step |
| MsrWorker.Msr.CloseServiceEnds | opos/OposLpu230/SoMsr.cpp:518-545 | closing behind the wait is one step and releases a claimed device |
| MsrWorker.Msr.ReleaseDevice | opos/OposLpu230/SoMsr.cpp:566-592 | releasing disables, drops queued requests and gives the claim up |
| MsrWorker.Msr.SetDeviceEnabled | opos/OposLpu230/SoMsr.cpp:167-180 | enabling takes effect only when claimed |
| MsrWorker.Msr.FindOpenEnterOpos | opos/OposLpu230/SoMsr.cpp:1046-1129 | what the search for a device leaves, and success only with a live handle |
| MsrWorker.Msr.Normal | opos/OposLpu230/SoMsr.cpp:1752-1799 | a normal round handles one request, or starts a read that is due |
| MsrWorker.Msr.Abnormal | opos/OposLpu230/SoMsr.cpp:1841-1887 | a round during recovery handles one request or looks for the device |
| MsrWorker.Msr.SeekDevice | opos/OposLpu230/SoMsr.cpp:1872-1886 | the search puts the reader back into service exactly when the device answers |
| MsrWorker.Msr.FinishTransfer | opos/OposLpu230/SoMsr.cpp:1967-1985 | a transfer loses the device exactly when the last error is one, and a Data event disables it if asked to |
| MsrWorker.Msr.SerialReadDone | opos/OposLpu230/SoMsr.cpp:1801-1833 | the callback sets the last error, and the round behind it is one step |
| MsrWorker.Msr.UsbReadDone | opos/OposLpu230/SoMsr.cpp:1963-2008 | fetching the tracks resets the last error, which is then tested; one step |
| MsrWorker.Msr.PowerSuspend | opos/OposLpu230/SoMsr.cpp:2253-2270 | one step |
| MsrWorker.Msr.PowerResume | opos/OposLpu230/SoMsr.cpp:2272-2297 | one step |
| MsrWorker.StepKeeps | opos/OposLpu230/SoMsr.cpp:1737-2111 | every step keeps: recovery implies open and State ERROR; open, not recovering and not suspended implies a live handle; enabled implies claimed; and what is queued fits where the caller is |
| MsrWorker.EveryRunSafe | opos/OposLpu230/SoMsr.cpp:1737-2297 | the same over every run |
| MsrWorker.WakeUnblocks | opos/OposLpu230/SoMsr.cpp:2163-2177 | a waiting caller can go on after the next wake-up exactly when the machine is not suspended |
| MsrWorker.UsbNeedsResume | opos/OposLpu230/SoMsr.cpp:1963-1989 | over every run without a serial port a recovery starts exactly when some resume of an open reader does not find it |
| MsrWorker.CloseWithoutAnswer | opos/OposLpu230/SoMsr.cpp:739-763 | a close that goes on after the time-out leaves the reader open on a null handle exactly when Leave was not handled; every run from there on is safe exactly when it was; a claimed device drops Leave |
| MsrWorker.OpenWithoutAnswer | opos/OposLpu230/SoMsr.cpp:729-737 | however many opens go on after the time-out, every run is safe as long as the closes wait |
| MsrWorker.ShutExactly | opos/OposLpu230/SoMsr.cpp:493-592 | from an open to the next close, in every run in which opens may go on early, the reader is running but shut exactly when a release or ClearInput of a claimed device dropped its Enter since; this takes an open that went on early |
| MsrWorker.ReadsFromDevice | opos/OposLpu230/SoMsr.cpp:1939-1957 | unless it is being closed, a worker about to read has a live handle exactly when it is open, and a null handle otherwise |
| MsrWorker.ReadsAfterLeave | opos/OposLpu230/SoMsr.cpp:1862-1867 | a worker that is closed goes on reading exactly when Leave is handled during recovery while a read is due |
| MsrWorker.ClosedReadsExactly | opos/OposLpu230/SoMsr.cpp:1752-1887 | over every run, the worker of a closed reader reads at its next wake-up, then from a null handle, exactly when the machine is not suspended and Leave was handled during a recovery with a read due, and no request was handled and no read started since |
| MsrWorker.DueExactly | opos/OposLpu230/SoMsr.cpp:1801-1887 | over every run, during a recovery a read is due exactly when the recovery started with a failed read, or while no read was under way |
| MsrWorker.ReadsWithoutDevice | opos/OposLpu230/SoMsr.cpp:1862-1867 | a run after which the closed worker reads from a null handle |
| LockShare.CShare.LockOpen | opos/OposLpu230Lock/SoLock.h:157-238 | one step, true exactly when the object became a member |
| LockShare.CShare.LockClose | opos/OposLpu230Lock/SoLock.h:240-260 | one step; the last close signals every waiter and closes the device |
| LockShare.CShare.SignalQueue | opos/OposLpu230Lock/SoLock.h:120-129 | everybody queued is signalled once, the first to come first |
| LockShare.CShare.RemoveFromQueue | opos/OposLpu230Lock/SoLock.h:110-118 | removes one waiter |
| LockShare.CShare.WaitBegins | opos/OposLpu230Lock/SoLock.cpp:464-495 | a wait is queued exactly when the guards pass, as the newest |
| LockShare.CShare.WaitTimesOut | opos/OposLpu230Lock/SoLock.cpp:498-512 | one step |
| LockShare.CShare.KeyCallback | opos/OposLpu230Lock/SoLock.h:324-402 | a key signals all waiters, is told to the enabled members and no one else, and a new wait for a key is set up; an error does nothing |
| LockShare.CShare.TellMembers | opos/OposLpu230Lock/SoLock.h:383-388 | the loop over the members tells each enabled one once |
| LockShare.StepShared | opos/OposLpu230Lock/SoLock.h:157-260 | counter, set, handle and armed wait stay consistent, and only a first open that fails makes the counter run ahead |
| LockShare.EveryRun | opos/OposLpu230Lock/SoLock.h:157-260 | counter equals the number of members and the device is open exactly while it is positive, if and only if no first open failed; every waiter is exactly once among queued, signalled and timed out |
| LockShare.StepOrderly | opos/OposLpu230Lock/SoLock.h:94-129 | signals and queue are in the order of arrival |
| LockShare.GiveUpRemovesOnly | opos/OposLpu230Lock/SoLock.h:110-118 | a time-out removes its own waiter and keeps the order of the others |
| LockShare.FailedOpenThenClose | opos/OposLpu230Lock/SoLock.h:162-260 | whatever the others did meanwhile, a close by the object whose open failed makes the counter the number of members again while no device is open; without members the share is as before |
| LockShare.LeakIsForever | opos/OposLpu230Lock/SoLock.h:162-217 | after a first open that failed no run of the others acquires the device or signals a waiter |
| LockShare.SilencedExactly | opos/OposLpu230Lock/SoLock.h:333-399 | from the open that acquires the device to the last close, a wait for a key is set up exactly when no callback ended in an error other than a cancellation or failed to set up the next wait |
| LockShare.DeafUntilLastClose | opos/OposLpu230Lock/SoLock.h:333-369 | without an armed wait nobody is signalled and no key reported before the last close |
| LockShare.DeafAfterCallback | opos/OposLpu230Lock/SoLock.h:333-399 | behind such a callback nobody is signalled and no key reported before the last close |
| Bcd.EncodeJustified | opos/code_tools/ct_convert.h:421-483 | the digits stand exactly at their half bytes, left or right, over the filler; too long gives nothing, a bad character stops there |
| Bcd.PlacedNibbles | opos/code_tools/ct_convert.h:457-476 | which digit or filler each half byte holds |
| Bcd.EncodeFolded | opos/code_tools/ct_convert.h:360-409 | result for every text of characters, size and side of padding |
| Bcd.EncodeNumber | opos/code_tools/ct_convert.h:485-534 | the same for the decimal digits of a 32-bit number |
| Bcd.EncodeAscii | opos/code_tools/ct_convert.h:536-568 | succeeds exactly on a non-empty even number of digits |
| Bcd.EncodersAgree | opos/code_tools/ct_convert.h:360-568 | on digits that fit all encoders give the same bytes with filler 0 |
| Bcd.Decode | opos/code_tools/ct_convert.h:571-610 | succeeds exactly when all half bytes are digits and the guard passes each byte; the result is the value modulo 2^32 |
| Bcd.DecodedExactly | opos/code_tools/ct_convert.h:571-610 | exact exactly up to ULONG_MAX, where the guard never stops |
| Bcd.JustOverTheMaximum | opos/code_tools/ct_convert.h:584-602 | of the values that pass the maximum with their last byte, those up to four above it are accepted |
| Bcd.GuardedExactly | opos/code_tools/ct_convert.h:584-602 | a code is accepted exactly when it splits into parts that each, but the last, come to one of the four values above the maximum, the next part starting again with the excess; the last part is the result |
| Bcd.AcceptedAsZero | opos/code_tools/ct_convert.h:584-602 | 4294967296 is accepted and reads as 0 |
| Bcd.NumberRoundTrip | opos/code_tools/ct_convert.h:485-610 | every 32-bit number comes back in any size that holds it |
| HexText.Encode | opos/code_tools/ct_convert.h:634-643 | two lower-case digits a byte with separators between |
| HexText.Decode | opos/code_tools/ct_convert.h:702-793 | the bytes of the tokens, or nothing if one token is bad |
| HexText.CutTokens | opos/code_tools/ct_convert.h:727-751 | the tokens as the separators cut them, trimmed but for the last |
| HexText.ReadByte | opos/code_tools/ct_convert.h:759-789 | one or two digits, and their value |
| HexText.RoundTripExactly | opos/code_tools/ct_convert.h:634-793 | all bytes come back exactly when the separator is not one or two digits repeated |
| HexText.Lost | opos/code_tools/ct_convert.h:727-751 | two bytes that do not come back with such a separator |
| HexText.ReencodedLower | opos/code_tools/ct_convert.h:713-726 | even-length text is read exactly when it is all digits, and is written again in lower case |
| MultiString.RequiredSize | opos/code_tools/ct_convert.h:1303-1324 | the size query is the number of cells written times their size |
| MultiString.Encode | opos/code_tools/ct_convert.h:1303-1339 | writes the encoded list and leaves what is behind it |
| MultiString.EncodeSet | opos/code_tools/ct_operation.h:458-484 | the encoded strings of the set, each once |
| MultiString.Decode | opos/code_tools/ct_convert.h:1429-1453 | the strings of the walk |
| MultiString.DecodeSet | opos/code_tools/ct_convert.h:1455-1481 | the set of these strings and its size |
| MultiString.RoundTrip | opos/code_tools/ct_convert.h:1303-1453 | a non-empty list comes back exactly when all strings are non-empty and free of NULs, whatever surrounds it |
| MultiString.SetRoundTrip | opos/code_tools/ct_operation.h:458-484 | the same for sets, in any order of writing |
| MultiString.Scan | opos/code_tools/ct_convert.h:1675-1721 | the parts in front of the first two NULs in a row |
| MultiString.ScanIsWalk | opos/code_tools/ct_convert.h:1693-1717 | finds strings exactly when there are two NULs in a row, and those of the walk exactly when the first is not empty |
| MultiString.ScanFindsEncoded | opos/code_tools/ct_convert.h:1693-1717 | the bounded scan finds the list that was encoded |
| Tokenizer.Tokenize | opos/code_tools/ct_convert.h:1583-1638 | the fields of the text, or the non-empty ones in order; nothing for an empty text, the text itself without separators |
| Tokenizer.NextTokens | opos/code_tools/ct_convert.h:1598-1634 | one round adds what it passes over |
| Tokenizer.FieldsRebuild | opos/code_tools/ct_convert.h:1583-1638 | one field more than separators, and both interleaved are the text |
| Tokenizer.FieldsFree | opos/code_tools/ct_convert.h:1583-1638 | no field holds a separator |
| Tokenizer.RebuiltFields | opos/code_tools/ct_convert.h:1583-1638 | no other fields rebuild the text |
| Tokenizer.NonEmptyKeepsRest | opos/code_tools/ct_convert.h:1604-1629 | ignoring empty fields loses no other |
| Utf8.IsAllUtf8 | opos/code_tools/ct_operation.h:753-821 | where the loop ends, true exactly when the buffer is not empty and splits into characters |
| Utf8.TestFollowing | opos/code_tools/ct_operation.h:806-814 | the inner loop stops at the end, or behind the first byte that is no continuation |
| Utf8.CleanIsSegmented | opos/code_tools/ct_operation.h:776-814 | the rounds find nothing wrong exactly when the buffer splits |
| Utf8.EndsExactly | opos/code_tools/ct_operation.h:776-816 | the loop ends exactly when no continuation byte follows the first thing that is wrong |
| Utf8.Concatenated | opos/code_tools/ct_operation.h:753-821 | behind a recognised buffer the whole is recognised exactly when the rest is |
| Utf8.TextIsRecognised | opos/code_tools/ct_operation.h:753-821 | the encoding of every sequence of Unicode scalar values is recognised |
| Utf8.Accepted | opos/code_tools/ct_operation.h:780-804 | overlong forms, surrogates and 0xFF pass; a lone continuation byte hangs |
| Version.BelowIsTotal | opos/code_tools/ct_version.h:75-166 | of two versions exactly one is smaller, or they are equal |
| Version.BelowIsTransitive | opos/code_tools/ct_version.h:75-166 | the order is transitive |
| Version.CtVersion.Greater | opos/code_tools/ct_version.h:75-108 | the lexicographic order of the four items |
| Version.CtVersion.Less | opos/code_tools/ct_version.h:128-140 | the same order the other way round |
| Version.CtVersion.GreaterOrEqual | opos/code_tools/ct_version.h:142-153 | not smaller |
| Version.CtVersion.LessOrEqual | opos/code_tools/ct_version.h:155-166 | not greater |
| Version.CtVersion.GetByString | opos/code_tools/ct_version.h:211-222 | the items in decimal with periods between |
| Version.CtVersion.SetByString | opos/code_tools/ct_version.h:225-278 | succeeds exactly on readable text; otherwise the version stays as it was |
| Version.SplitText | opos/code_tools/ct_version.h:232-255 | the items of a text: missing ones are 0, a fifth may only be empty |
| Version.PrintedIsRead | opos/code_tools/ct_version.h:211-278 | every version of every item width comes back from its text |
| Version.NumberOfDecimal | opos/code_tools/ct_convert.h:172-203 | a 32-bit number is read from its decimal digits |
| Version.NegativeNumber | opos/code_tools/ct_convert.h:172-203 | a negative number reads as the one 2^32 above it |

## Left out

- FolderRemoval.Volume.RemoveFolderContents: a volume fails a deletion only for read-only files and folders, and a removal for folders that are read-only or not empty; sharing violations and rights are not modelled. Paths are sequences of names, and the found lists are returned instead of appended to an out-parameter.
- PacketFraming.SendRequest: the response that is read after the request is not modelled, and neither is overlapped I/O within one write.
- CardReader.Reader.SaveMsrData: the conversion to wide characters keeps the byte; locales are not modelled.
- CardReader.Reader.Fire: the properties that switch error reporting on are parameters, and the event queue is the separate module `MsrEventQueue`.
- Delivery.FindsOwnExactly: track properties that are written from outside are not modelled.
- MsrWorker.EveryRunSafe: ending the worker (`Kill`) and calls from several application threads at once are not modelled; the 2-second limit of a wait is the subject of `CloseWithoutAnswer` and `OpenWithoutAnswer`.
- MsrWorker.Msr.Normal: draining the event queue in an idle round is the call `Drain` of `MsrEventQueue` and is not repeated here; neither is the count of data events.
- LockShare.EveryRun: lock time-outs of the mutexes, and a callback that arrives while the device closes, are not modelled; a step is atomic. The formatting of the key value is the identity.
- MultiString.EncodeSet: the order in which a set is written is arbitrary, not that of `std::set`.
- MultiString.Scan: the conversion of the parts from UTF-8 is not modelled.
- Utf8.IsAllUtf8: requires that the loop ends, with the exact condition `Hangs`; `EndsExactly` shows that it is exact. A null pointer is not modelled.
- HexText.Decode: wide characters above 255, which the code cuts to a byte, are not modelled.
- Bcd.Decode: a null pointer is not modelled.
- Bcd.EncodeFolded: wide characters above 255 are not modelled.
- Tracks 3 and 4 beyond their strings, JIS tracks, encryption and key storage.
- `get_folder_size`, the other forms of the folder search, and the remaining conversions of the tool headers: they would only add easy members.
- COM dispatch, registry, logging, window and service code: there is no logic to prove.
