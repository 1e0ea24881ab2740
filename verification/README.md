# Courier: seven engines and what they keep

This project models the parts of the Courier mail system (with its calendar server) whose
correctness no finite set of examples settles, and proves their central properties. The loops and
objects modelled are loops and classes here, proved against specification functions; the properties
are lemmas about those functions, over all inputs, all runs or all ways of cutting up the input.
`dafny verify dfyconfig.toml` checks everything.

| module | what it models |
|---|---|
| `Text` | C-locale character classes, decimal numbers, `strchr`, carriage returns |
| `EventTimes` | sorting an event's times and refusing overlaps (`pcpaddcommon.c`) |
| `CalendarIndex`, `Calendar` | the calendar directory: what each operation does to the index, and the class whose methods do it (`pcpdir.c`) |
| `CalendarRuns` | what every run of calendar operations keeps |
| `CalendarPromises` | what each calendar operation promises its caller: exactly when it succeeds, what it leaves and which error it reports |
| `CalendarGaps` | the three places where the calendar keeps less than one expects, each with its exact condition and an example |
| `IndexLine`, `IndexBuffer` | the text of the calendar index: one line a record, and the line buffer that reads and rewrites it |
| `IndexPass` | booking and committing on the text of the index: what is written reads back as what the pass over the records says |
| `AutomatonSearch` | the string search automaton with its retry table (`maildirsearch.c`, `.h`) |
| `Md5`, `Hmac` | streaming MD5 around a compression function that is a parameter, and HMAC resumed from saved states |
| `MimeText`, `MimeSigning`, `MimeChecking`, `MimeRoundTrip` | signing a MIME part and rebuilding it for verification (`mimegpg.c`, `mimegpgstack.c`) |
| `MimeHeaders`, `MimeHeaderLoops` | the MIME header parser and printer (`mimegpgheader.c`) |
| `SharedSync` | the local links to a shared folder (`maildirshared.c`) |
| `QuotaLog` | the append-only `maildirsize` file (`maildirquota.c`, `strofft.c`) |
| `SizeTag` | sizes in message file names (`maildirrequota.c`, `maildirparsequota.c`, `maildirfilename.c`) |
| `Timers` | the sorted timer list (`pcpdtimer.c`) |
| `DotStuffing` | event text on the wire, in both directions (`pcpnet.c`, `pcpd.c`) |
| `GmTime` | UTC instants from calendar fields and back (`pcpgmtime.c`) |
| `Base64` | the encoder, the decoder in place and the streaming decoder |

Conventions. A C string is a `string` without a NUL; an address inside a string is a position or the
text from that position on. The calendar works under a lock, so each of its operations is one step.
What the operating system decides (whether a lock is obtained, a file can be moved, a link replaced,
a directory read in which order, what time it is) is a parameter and can take every value.

Where the code does not do what its documentation or its comments say, the model follows the code.
For each, lemmas give the exact condition and, but for the last, a concrete input:

* Restoring a cancelled event looks at every other event but remembers only the last comparison, so
  a conflict can be overlooked, and the call succeeds with the error code of a conflict
  (`CalendarRuns.UncancelNoOverlapIff`, `CalendarGaps.UncancelCanOverlap`).
* A booking marks the event it is to replace, but leaves a mark that is already there, even if the
  booking that made it is gone; then a second handle can book a replacement too
  (`CalendarGaps.MarkKeepsOthersOutIff`, `StaleMarkLetsTwoIn`).
* Cleaning up stops at the first committed record whose file cannot be looked at or at a write error,
  and installs the part of the index written so far (`CalendarGaps.CleanupKeepsLiveIff`,
  `CleanupLosesMeeting`, `CleanupLosesUnwritten`).
* A carriage return can hide an outer boundary from the signer but not from the verifier
  (`MimeRoundTrip.SignedPartVerifiesIff`, `CarriageReturnHidesBoundary`; `PlainBodyIsUnmistakable`
  says that LF and CRLF line ends never do), and a dot from the sender of an event but not from its
  receiver (`DotStuffing.WireArrivesIff`, `HiddenDotEndsTheText`).
* `good_boundary` calls `is_boundary` on a boundary without the two dashes in front of it, so the
  outer entries do not reject any boundary that `newboundary` makes, and an accepted one collides
  with an outer entry exactly when that entry begins it (`MimeChecking.StackIsAsked`,
  `AcceptedCollidesIff`, `CollisionExample`).
* `md5_context_endstream` puts the length in a 32-bit variable, so the padding is that of RFC 1321
  only below 2^32 bytes, modulo 2^61 (`Md5.LengthFieldIff`, `LengthOfFourGigabytes`).
* A printed MIME header loses a last attribute that has neither name nor value
  (`MimeHeaders.RoundTripIff`, `EmptyAttributeIsLost`).
* A shared folder whose full names are 95 characters longer than the local ones is linked once and
  then refused at the next synchronisation, because the buffer for `readlink` is too short
  (`SharedSync.SettledStays`, `LongNameIsRefused`).
* A blank booking time in an index line is read from the next cell, so taking a field away can change
  what another reads as (`IndexLine.RewrittenReadsIff`, `BlankBookingReadsOn`).
* A name with two size tags keeps its old size whatever it is set to (`SizeTag.RequotaParses`,
  `SecondTagStays`).
* `retr_107` never ends once it has read a carriage return, which is exactly when the text retrieved
  holds one (`DotStuffing.WireReturnsIff`, `LoneReturnIsMet`, `DotStuffing.Retriever.Receive`,
  `DotStuffing.Retrieve`).
* A timer whose alarm comes out as 0, the mark of a timer that is off, is put on the list and can no
  longer be told from one that is off (`Timers.TimerList.Install`).

## Model

| member | source | states |
|---|---|---|
| `EventTimes.SortTimes` | src/pcp/pcpaddcommon.c:30-72 | the list is accepted exactly when it is not empty, no interval is reversed and no two conflict; the result is a sorted permutation of it |
| `EventTimes.NeighboursDecide` | src/pcp/pcpaddcommon.c:52-70 | in a sorted list, comparing neighbours decides whether any two intervals conflict |
| `EventTimes.SortedDecides` | src/pcp/pcpaddcommon.c:19-72 | after sorting, the neighbour test accepts exactly the lists that may be booked |
| `EventTimes.BookableIgnoresOrder` | src/pcp/pcpdir.c:1770-1778 | whether intervals conflict with one another does not depend on their order |
| `CalendarIndex.Kept` | src/pcp/pcpdir.c:1267-1339 | the line written for an old record keeps its id, file, times and cancellation, loses its booking only when its own handle commits, and is dropped exactly when it is replaced at commit or rebooked |
| `CalendarIndex.LastFault` | src/pcp/pcpdir.c:1284-1366 | the pass over the index fails exactly when some line stops it |
| `CalendarIndex.NewRecordReads` | src/pcp/pcpdir.c:1381-1454 | the record written for a new event has the id, file and times asked for, is cancelled if the replaced event was, and is booked exactly in booking mode |
| `Calendar.EventHandle.constructor` | src/pcp/pcpdir.c:618-757 | a new handle is not booked and still has its temporary file |
| `Calendar.Driver.NewEventId` | src/pcp/pcpdir.c:618-757 | no handle is made exactly when the event cannot be saved or a participant has a blank in its address or id; a handle carries the unique id, the event to replace and the participants |
| `Calendar.Driver.EventExists` | src/pcp/pcpdir.c:1162-1200 | the flag tells exactly whether the index has a record with the id |
| `Calendar.Driver.IsConflict` | src/pcp/pcpdir.c:1744-1831 | true exactly when one of the record's times conflicts with one of the given ones |
| `Calendar.Driver.ScanLine` | src/pcp/pcpdir.c:1265-1366 | for one old line: what is written in its place and what fault it raises, as the specification of the pass says |
| `Calendar.Driver.ScanIndex` | src/pcp/pcpdir.c:1262-1369 | the whole pass: the rewritten index, the last fault, whether the own booking was found, and the file of the replaced event |
| `Calendar.Driver.AddressesGood` | src/pcp/pcpdir.c:1439-1452 | true exactly when no participant's address holds a control character or a blank |
| `Calendar.Driver.InstallIndex` | src/pcp/pcpdir.c:1464-1497 | the new index, the event file and the handle's flags change hands only if every step before succeeded |
| `Calendar.Driver.DoCommitEvent` | src/pcp/pcpdir.c:1203-1508 | booking and committing change index, files and handle exactly as CommitStep says, in every case of failing system calls; what that means is stated by CommitEvent, BookEvent and the lemmas of CalendarPromises |
| `Calendar.Driver.CommitEvent` | src/pcp/pcpdir.c:1145-1149 | a commit succeeds exactly when the handle is pending, the times are bookable, no system call fails, its booking is still there, no other live event meets the times (unless allowed or a booking is committed) and new addresses are fit; then it takes the booking off or adds the new record, drops the replaced event with its file and leaves all else; otherwise the index stays |
| `Calendar.Driver.BookEvent` | src/pcp/pcpdir.c:1151-1155 | a booking succeeds under the same conditions and if the event to replace bears no mark of another event that still exists; then it adds the booked record, marks the event to replace, and touches no file |
| `Calendar.Driver.CancelEvent` | src/pcp/pcpdir.c:1944-2014 | succeeds exactly when there is the event and no system call fails; then its records that are not cancelled get a cancellation, and every other record is unchanged |
| `Calendar.Driver.FindEvent` | src/pcp/pcpdir.c:2040-2062 | finds the first record with the id, and fails exactly when there is none |
| `Calendar.Driver.RestoreIndex` | src/pcp/pcpdir.c:2070-2126 | every record with the id loses its cancellation, and the result is the verdict of the last record compared |
| `Calendar.Driver.UncancelEvent` | src/pcp/pcpdir.c:2016-2146 | succeeds exactly when the event is there, its times may be booked, the last event compared does not meet them or conflicts are allowed, and no system call fails; then its records lose their cancellations, and every other record is unchanged |
| `Calendar.Driver.DeleteEvent` | src/pcp/pcpdir.c:2148-2216 | succeeds exactly when there is the event and no system call fails; then exactly its records and its file are gone, and the order stays |
| `Calendar.Driver.DestroyEventId` | src/pcp/pcpdir.c:759-796 | a booked handle takes its records with it, exactly those of its id; any other handle leaves the calendar alone; the handle is spent |
| `Calendar.Driver.Cleanup` | src/pcp/pcpdir.c:1521-1691 | the new index, the files left and the result are those of CleanupStep, also when writing fails |
| `Calendar.Driver.SweepIndex` | src/pcp/pcpdir.c:1553-1616 | the lines that stay, their files, and whether the pass got to the end of the index |
| `CalendarRuns.StepKeeps` | src/pcp/pcpdir.c:1203-1508 | every operation keeps the index consistent, and every operation that respects conflicts keeps it free of overlaps |
| `CalendarRuns.RunWellKept` | src/pcp/pcpdir.c:1203-1508 | over every run each id has at most one record, its booking and times agree with its handle, and committed events have their file |
| `CalendarRuns.RunNoOverlap` | src/pcp/pcpdir.c:1265-1366 | over every run that respects conflicts, events overlap only while one is booked to replace the other |
| `CalendarRuns.CommittedNeverOverlap` | src/pcp/pcpdir.c:1744-1831 | starting from an empty calendar, no two committed events that are not cancelled ever share a moment |
| `CalendarRuns.CommitMembers` | src/pcp/pcpdir.c:1262-1455 | which records a successful booking or commit leaves: the kept ones and at most one new one |
| `CalendarRuns.CommitWellKept` | src/pcp/pcpdir.c:1203-1508 | a booking or commit keeps the index consistent |
| `CalendarRuns.CommitNoOverlap` | src/pcp/pcpdir.c:1343-1366 | a booking or commit that respects conflicts keeps the calendar free of overlaps |
| `CalendarRuns.DroppedFileIsUnused` | src/pcp/pcpdir.c:1488-1492 | the file that a commit removes belongs to no record that stays, and is not the new event's own |
| `CalendarRuns.FailedCommitKeeps` | src/pcp/pcpdir.c:1222-1226 | a booking or commit that fails leaves the index as it was and keeps the invariants |
| `CalendarRuns.SettledStays` | src/pcp/pcpdir.c:1222-1226 | a handle whose temporary file is gone never gets it back in any run |
| `CalendarRuns.CommittedHandleIsSpent` | src/pcp/pcpdir.c:1222-1226 | after a commit, and any run behind it, booking or committing with the same handle again changes nothing |
| `CalendarRuns.CommitKeepsBooking` | src/pcp/pcpdir.c:1267-1283 | committing a booked handle keeps exactly the times last booked, drops the replaced event and leaves every other record alone |
| `CalendarRuns.CancelNoOverlap` | src/pcp/pcpdir.c:1944-2014 | cancelling keeps the calendar free of overlaps |
| `CalendarRuns.CancelWellKept` | src/pcp/pcpdir.c:1944-2014 | cancelling keeps the index consistent |
| `CalendarRuns.UncancelNoOverlapIff` | src/pcp/pcpdir.c:2016-2146 | an uncancel keeps the calendar free of overlaps if and only if it is refused or the restored event overlaps no event it was compared with, except where one is booked to replace the other |
| `CalendarRuns.UncancelWellKept` | src/pcp/pcpdir.c:2070-2126 | restoring an event keeps the index consistent |
| `CalendarRuns.DeleteStepMembers` | src/pcp/pcpdir.c:2148-2216 | a delete leaves only old records, with their files; if it succeeds, exactly those with another id |
| `CalendarPromises.CommitSucceedsIff` | src/pcp/pcpdir.c:1203-1508 | for every index and handle: a booking or commit succeeds if and only if nothing that can be looked up beforehand stands against it and no system call fails |
| `CalendarPromises.CommitErrorIs` | src/pcp/pcpdir.c:1222-1366 | the error code of a failing booking or commit: of all records that stand against it, the last decides |
| `CalendarPromises.CommitLeaves` | src/pcp/pcpdir.c:1262-1497 | the records, the flags of the handle and the files that a successful booking or commit leaves, record by record |
| `CalendarPromises.FailureLeaves` | src/pcp/pcpdir.c:1456-1497 | a failing one leaves the index; only the event file may have been moved, and a booking found missing is forgotten |
| `CalendarPromises.NewRecordIsNew` | src/pcp/pcpdir.c:1371-1455 | the new record has the id, file, sorted times, marks and participants asked for, and no other field |
| `CalendarPromises.CancelIs` | src/pcp/pcpdir.c:1944-2014 | when cancelling succeeds, with which error it fails, and every record afterwards |
| `CalendarPromises.UncancelIs` | src/pcp/pcpdir.c:2016-2146 | when restoring succeeds, and every record afterwards |
| `CalendarPromises.UncancelErrorIs` | src/pcp/pcpdir.c:2016-2146 | the error code of restoring tells of any conflict met, also of one that is then overlooked |
| `CalendarPromises.LastVerdictIs` | src/pcp/pcpdir.c:2083-2103 | only the last event that is compared decides |
| `CalendarPromises.DeleteIs` | src/pcp/pcpdir.c:2148-2216 | when deleting succeeds, with which error it fails, and the records and files afterwards |
| `CalendarPromises.CleanupIs` | src/pcp/pcpdir.c:1521-1691 | the records that cleaning up keeps (bookings for an hour, events while their file is there and a time is late enough), up to the first it knows nothing of and as far as written, and the files it leaves |
| `CalendarGaps.UncancelCanOverlap` | src/pcp/pcpdir.c:2093-2100 | a calendar without overlaps where an uncancel is accepted, with the error code of a conflict, and makes an overlap |
| `CalendarGaps.BookingIds` | src/pcp/pcpdir.c:1296-1338 | a booking adds its own id, removes none, and marks the event it is to replace |
| `CalendarGaps.MarkKeepsOthersOutIff` | src/pcp/pcpdir.c:1296-1334 | after a booking, the next handle that wants the same event is kept out if and only if the event bore no other mark before |
| `CalendarGaps.SecondBookingGoesThrough` | src/pcp/pcpdir.c:1300-1326 | with a stale mark a second handle books its replacement right after the first |
| `CalendarGaps.StaleMarkLetsTwoIn` | src/pcp/pcpdir.c:1323-1325 | a calendar where two handles book replacements for one event |
| `CalendarPromises.SweptAt` | src/pcp/pcpdir.c:1556-1614 | a record is in the cleaned index exactly when it survives and neither it nor one before it ended the pass |
| `CalendarGaps.CleanupKeepsLiveIff` | src/pcp/pcpdir.c:1521-1691 | a clean-up that installs its index keeps every live event if and only if no live event stands at or behind a file it could not examine and every line could be written; it never keeps anything else |
| `CalendarGaps.CleanupLosesMeeting` | src/pcp/pcpdir.c:1575-1585 | a calendar of two meetings where an unreadable file of the first costs the second, which is still to come |
| `CalendarGaps.CleanupLosesUnwritten` | src/pcp/pcpdir.c:1619-1633 | a calendar of two meetings where a failed write costs both |
| `IndexLine.RecordRoundTripIff` | src/pcp/pcpdir.c:974-1095 | a record is read back from its printed line if and only if no text in it holds one of the separators |
| `IndexLine.PrintedField` | src/pcp/pcpdir.c:1389-1437 | every clean field is printed in one cell that reads back as that field and bears only its name |
| `IndexLine.PrintedLine` | src/pcp/pcpdir.c:860-867 | a whole line, character by character |
| `IndexLine.FieldExamples` | src/pcp/pcpdir.c:1389-1437 | each kind of field in print |
| `IndexLine.RewrittenReadsIff` | src/pcp/pcpdir.c:1097-1139 | the rewritten line reads as the same record without the named fields and with the new one behind them if and only if no blank booking time stands before a field taken away and then before a number |
| `IndexLine.SteadyNeverConfuses` | src/pcp/pcpdir.c:1041-1059 | taking away the booking itself confuses no line |
| `IndexLine.RewrittenIsPrinted` | src/pcp/pcpdir.c:1097-1139 | on a record's own line the rewriting is character for character the line of the rewritten record |
| `IndexLine.BlankBookingReadsOn` | src/pcp/pcpdir.c:1041-1059 | a line where removing a field changes what another field reads as |
| `IndexBuffer.IndexRoundTripIff` | src/pcp/pcpdir.c:869-901 | a whole index survives being written and read line by line if and only if each record is clean and fits one line |
| `IndexBuffer.ReadRecordFits` | src/pcp/pcpdir.c:869-1095 | whatever is read from one line could have been written to one |
| `IndexBuffer.IsEventIdIff` | src/pcp/pcpdir.c:903-909 | comparing the front of a line decides whether it is the line of an id without a tab |
| `IndexBuffer.LineBuffer.Read` | src/pcp/pcpdir.c:869-901 | reads exactly one complete line and stops behind it; a last line without a line end is not read |
| `IndexBuffer.LineBuffer.First` | src/pcp/pcpdir.c:974-989 | the first field begins behind the second tab |
| `IndexBuffer.LineBuffer.Next` | src/pcp/pcpdir.c:991-998 | the next tab-free cell is stepped over: the text left is that cell, a tab and what the result points at, and the fields still to be read are those of the cell and then those behind it |
| `IndexBuffer.LineBuffer.HasCancelled` | src/pcp/pcpdir.c:1013-1021 | on text, decides whether the record read from the line is cancelled |
| `IndexBuffer.LineBuffer.BookedSince` | src/pcp/pcpdir.c:1041-1059 | on text, gives the first readable booking time of the record |
| `IndexBuffer.LineBuffer.PendingFor` | src/pcp/pcpdir.c:1061-1095 | on text, gives the event that the record is to make way for |
| `IndexBuffer.LineBuffer.Conflicts` | src/pcp/pcpdir.c:1744-1831 | on text, decides whether one of the record's times conflicts with one of the given ones |
| `IndexBuffer.LineBuffer.RemoveField` | src/pcp/pcpdir.c:1097-1139 | what is written is the rewritten line of the specification |
| `IndexBuffer.FindValue` | src/pcp/pcpdir.c:1033-1039 | the value of a field begins behind its first equals sign |
| `IndexBuffer.ParseTimeField` | src/pcp/pcpdir.c:1718-1742 | two numbers around a comma, or failure |
| `IndexBuffer.AnyConflict` | src/pcp/pcpdir.c:1770-1803 | true exactly when one of the times conflicts with the interval |
| `IndexBuffer.PrintNew` | src/pcp/pcpdir.c:1381-1454 | writes exactly the line of the new record, and tells whether every address is fit |
| `IndexBuffer.PrintMarks` | src/pcp/pcpdir.c:1389-1408 | writes the cells for cancellation, proxy and booking |
| `IndexBuffer.PrintTimes` | src/pcp/pcpdir.c:1410-1417 | writes one cell for each time, in order |
| `IndexBuffer.PrintParticipants` | src/pcp/pcpdir.c:1420-1452 | writes one cell for each participant with an address, in order, and tells whether every address is fit |
| `IndexBuffer.NewLineReadsBack` | src/pcp/pcpdir.c:1381-1454 | every line written for a new event with fit addresses reads back as the same record |
| `IndexPass.KeptLineReadsIff` | src/pcp/pcpdir.c:1265-1339 | the line written for an old one is there exactly when its record is kept, and reads as the record that the pass over the records keeps exactly when no blank booking time is confused |
| `IndexPass.PassReadsIff` | src/pcp/pcpdir.c:1262-1369 | the text written by a pass over the lines reads back as the rewritten index exactly when every line does |
| `IndexPass.EventExists` | src/pcp/pcpdir.c:1162-1200 | on the text of the index, the flag tells exactly whether it has a record with the id |
| `IndexPass.ScanLine` | src/pcp/pcpdir.c:1265-1366 | on the text of one line: what is written in its place, and the fault of the record read from it |
| `IndexPass.ScanText` | src/pcp/pcpdir.c:1262-1369 | on the text of the index: the lines written, and the same faults, file and flags as the pass over the records |
| `IndexPass.WriteIndex` | src/pcp/pcpdir.c:1262-1455 | what booking or committing writes reads back as the rewritten index and the new record if and only if no line holds a blank booking time that its new mark confuses; faults and bad addresses are found as on records |
| `AutomatonSearch.BuildTable` | src/maildir/maildirsearch.c:11-38 | each entry is the longest proper border whose next character differs, or 0 |
| `AutomatonSearch.MismatchIsRetry` | src/maildir/maildirsearch.c:24-34 | at each shift only the first mismatch gives a length worth retrying |
| `AutomatonSearch.RetryKeepsCandidates` | src/maildir/maildirsearch.h:63-69 | falling back along the table loses no prefix that the next character could extend |
| `AutomatonSearch.TracksIsUnique` | src/maildir/maildirsearch.h:59-71 | the state is determined by pattern and text |
| `AutomatonSearch.StepEstablishes` | src/maildir/maildirsearch.h:63-69 | when falling back ends, the state is the longest prefix that ends the longer text |
| `AutomatonSearch.SearchEngine.Start` | src/maildir/maildirsearch.c:11-38 | a fresh table for the pattern, and no text read |
| `AutomatonSearch.SearchEngine.Reset` | src/maildir/maildirsearch.h:54-54 | the same pattern, and no text read |
| `AutomatonSearch.SearchEngine.Step` | src/maildir/maildirsearch.h:59-71 | one more character has been read; an engine that was never started ignores it |
| `AutomatonSearch.SearchEngine.Found` | src/maildir/maildirsearch.h:56-57 | true exactly when the pattern occurs in the text read |
| `AutomatonSearch.Search` | src/maildir/maildirsearch.h:54-71 | found exactly when the pattern occurs, with at most twice as many comparisons as characters |
| `Md5.FoldAppend` | src/md5/md5.c:162-190 | compressing two runs of blocks is compressing them together |
| `Md5.LengthFieldIff` | src/md5/md5.c:192-236 | the length written is that of section 3.2 of RFC 1321 if and only if the length, modulo 2^61, is below 2^32 |
| `Md5.LengthOfFourGigabytes` | src/md5/md5.c:192-236 | a length that is written wrongly |
| `Md5.PaddedIff` | src/md5/md5.c:192-236 | the message is completed as in sections 3.1 and 3.2 of RFC 1321 under exactly that condition |
| `Md5.PaddedIs` | src/md5/md5.c:192-236 | the padded message byte by byte: message, mark, zeros and the 64-bit length |
| `Md5.InitialBytes` | src/md5/md5.c:36-46 | the initial words are those of section 3.3 of RFC 1321 |
| `Md5.ZeroCount` | src/md5/md5.c:192-236 | the number of zeros brings message and mark to 56 modulo 64 |
| `Md5.RestoreDigest` | src/md5/md5.c:238-269 | restoring a digest brings back the words it was made from |
| `Md5.DigestRestore` | src/md5/md5.c:238-269 | the digest of restored words is the digest restored |
| `Md5.Md5Context.Init` | src/md5/md5.c:36-46 | a context with the initial words that was fed nothing |
| `Md5.Md5Context.HashStream` | src/md5/md5.c:162-190 | the bytes are absorbed: whole blocks compressed, the rest in the buffer, whatever was there before |
| `Md5.Md5Context.EndStream` | src/md5/md5.c:192-236 | mark, zeros and length are absorbed and the buffer is empty |
| `Md5.Md5Context.Digest` | src/md5/md5.c:238-250 | the sixteen bytes of the four words, low-order byte first |
| `Md5.Md5Context.Restore` | src/md5/md5.c:252-269 | the context continues from the words of the digest with an empty buffer |
| `Md5.Md5InPieces` | src/md5/md5.c:162-236 | however a message is cut into calls, the blocks compressed are those of the padded message, if and only if its length allows |
| `Md5.Md5Digest` | src/md5/md5.c:271-279 | the digest of RFC 1321 for every message below 2^32 bytes |
| `Hmac.HashPaddedKey` | src/libhmac/hmac.c:70-105 | what goes to the hash, in pieces, is the key filled up with zeros and masked |
| `Hmac.HashLongKey` | src/libhmac/hmac.c:57-68 | a key longer than a block is replaced by its digest |
| `Hmac.HashKey` | src/libhmac/hmac.c:29-41 | the two saved states are those after the outer and the inner padded key |
| `Hmac.ResumedIff` | src/libhmac/hmac.c:138-151 | the saved block and what is hashed behind it are the padded message of both if and only if the length with the block, modulo 2^61, is below 2^32 |
| `Hmac.Resumed` | src/libhmac/hmac.c:138-151 | resuming from a saved block and stating the length with that block hashes block and text together |
| `Hmac.ResumeAndFinish` | src/libhmac/hmac.c:138-151 | one half of the text step: the digest of block and text |
| `Hmac.HashText` | src/libhmac/hmac.c:118-151 | on the states saved for a key, the result is HMAC as in section 2 of RFC 2104 |
| `Hmac.ComputeHmac` | src/libhmac/hmac.c:29-151 | key step and text step together compute HMAC for every key and text below the length limit |
| `Hmac.HmacIs` | src/libhmac/hmac.c:70-151 | HMAC in terms of two blocks of 64 bytes: the key, or the digest of a longer one, exclusive-or 0x36 and 0x5C |
| `MimeText.SearchMimestack` | src/gpglib/mimegpgstack.c:60-73 | the first entry, from the top, that the text begins with, ignoring case |
| `MimeText.BeginsIs` | src/gpglib/mimegpgstack.c:60-73 | comparing ignores the case of letters, and nothing else |
| `MimeText.IsBoundary` | src/gpglib/mimegpg.c:69-81 | decides whether the line delimits an entry of the stack, which one, and whether it closes it |
| `MimeText.HitIs` | src/gpglib/mimegpg.c:69-81 | of the entries that begin the line the topmost is found, and two more dashes close it |
| `MimeText.PopTo` | src/gpglib/mimegpgstack.c:49-58 | what stood below the first such entry remains; without one, nothing |
| `MimeText.PopMimestackTo` | src/gpglib/mimegpgstack.c:49-58 | the loop leaves the stack that PopTo says |
| `MimeSigning.ContentHeaderIs` | src/gpglib/mimegpg.c:219-224 | a header is signed exactly when its first eight characters are "content-" in any mixture of cases |
| `MimeText.BoundaryIgnoresNewline` | src/gpglib/mimegpg.c:69-81 | a line end in the buffer makes no difference to the boundary test |
| `MimeText.StopAtIs` | src/gpglib/mimegpg.c:445-461 | the signer stops at the first line that shows a boundary |
| `MimeText.CanonicalPairs` | src/gpglib/mimegpg.c:464-480 | in the canonical form carriage returns and newlines come in pairs only, and nothing else is lost |
| `MimeSigning.PutHeader` | src/gpglib/mimegpg.c:424-440 | a content header is signed without its carriage returns and with CRLF line ends |
| `MimeSigning.CopyLine` | src/gpglib/mimegpg.c:467-480 | a read buffer without its carriage returns, up to the line end |
| `MimeSigning.CopyLines` | src/gpglib/mimegpg.c:464-488 | one line is copied without carriage returns, however many buffers it takes |
| `MimeSigning.WriteSignedContent` | src/gpglib/mimegpg.c:424-502 | the bytes to be signed are headers and lines up to the first outer boundary, in canonical form, for every buffer size |
| `MimeSigning.SignedBytesAre` | src/gpglib/mimegpg.c:424-502 | the bytes signed are the canonical form of exactly those headers, in order, an empty line and the canonical form of the lines read, without the line end before a boundary |
| `MimeChecking.GoodBoundary` | src/gpglib/mimegpg.c:1077-1115 | accepted exactly when is_boundary does not take the bare boundary, without dashes, for a boundary line, and no read buffer of the content looks like its delimiter |
| `MimeChecking.AbsentIsGood` | src/gpglib/mimegpg.c:1077-1115 | a boundary that stands nowhere in the content is never turned down because of it |
| `MimeChecking.StackIsAsked` | src/gpglib/mimegpg.c:69-81 | an outer entry rejects a boundary exactly when the boundary itself begins with two dashes and that entry |
| `MimeChecking.CollidesIff` | src/gpglib/mimegpg.c:69-81 | the delimiter of a boundary is taken for one of an outer entry exactly when an entry begins the boundary |
| `MimeChecking.AcceptedCollidesIff` | src/gpglib/mimegpg.c:1059-1115 | a boundary without leading dashes is accepted whatever the stack is, and then collides with an outer entry exactly when an entry begins it |
| `MimeChecking.CollisionExample` | src/gpglib/mimegpg.c:1077-1115 | an accepted boundary whose delimiter an outer entry would take for its own |
| `MimeChecking.GetBoundary` | src/gpglib/mimegpg.c:1117-1128 | the boundary chosen is one of the candidates and delimits nothing in the content; none is chosen only if none is good |
| `MimeChecking.CopySignedContent` | src/gpglib/mimegpg.c:537-546 | the signer is given the content itself, and what is printed is the content without carriage returns |
| `MimeChecking.PublishedCloses` | src/gpglib/mimegpg.c:553-568 | what is published ends with the signature as given and the delimiter that closes the multipart |
| `MimeChecking.FindBoundary` | src/gpglib/mimegpg.c:93-141 | ends behind the first line that opens a part, with the stack popped by the closing ones before it |
| `MimeChecking.FindFromEnds` | src/gpglib/mimegpg.c:93-141 | the search ends behind a line that opens a part of the stack it leaves, which is the lower end of the stack it was given |
| `MimeChecking.ClosedIsPopped` | src/gpglib/mimegpg.c:133-137 | a closing delimiter takes its entry off the stack, and the search goes on behind it |
| `MimeChecking.RebuildContent` | src/gpglib/mimegpg.c:861-883 | the bytes rebuilt are the lines up to the next boundary with CRLF between them and none at the end |
| `MimeChecking.CheckSign` | src/gpglib/mimegpg.c:825-883 | what is handed to the verifier, or nothing when no part begins |
| `MimeRoundTrip.StopFrom` | src/gpglib/mimegpg.c:864-883 | the verifier reaches the delimiter exactly when no line of the text looks like a boundary, and otherwise stops earlier |
| `MimeRoundTrip.FindsPart` | src/gpglib/mimegpg.c:527-535 | the verifier skips the published preamble and starts at the text |
| `MimeRoundTrip.RebuiltIffClear` | src/gpglib/mimegpg.c:861-883 | the bytes rebuilt are the bytes signed if and only if no line of the published text looks like a boundary |
| `MimeRoundTrip.GoodBoundaryIsClear` | src/gpglib/mimegpg.c:1077-1115 | a boundary accepted for the signed bytes delimits no line of the published text |
| `MimeRoundTrip.ConsumedIsClear` | src/gpglib/mimegpg.c:445-488 | no line that the signer read looked like an outer boundary |
| `MimeRoundTrip.SignedTextClearIff` | src/gpglib/mimegpg.c:424-502 | no line of the signed text can be mistaken for an outer boundary if and only if none of the content headers and none of the body without its carriage returns can |
| `MimeRoundTrip.SignedPartVerifiesIff` | src/gpglib/mimegpg.c:385-574 | for every message: rebuilding what was published gives back the bytes that were signed if and only if no content header and no body line without its carriage returns looks like an outer boundary, for every buffer size that holds a delimiter |
| `MimeRoundTrip.PlainBodyIsUnmistakable` | src/gpglib/mimegpg.c:456-488 | carriage returns that only end lines hide nothing: for a body of LF or CRLF lines the headers alone decide |
| `MimeRoundTrip.Sign` | src/gpglib/mimegpg.c:385-574 | the whole signing routine: the bytes for the signer are the canonical form of the headers named content-, whatever their case, an empty line and the lines up to the outer boundary, and the verifier rebuilds them from the published part if and only if headers and stripped body are free of outer boundaries |
| `MimeRoundTrip.CarriageReturnHidesBoundary` | src/gpglib/mimegpg.c:456-470 | a raw body whose signed bytes are not rebuilt |
| `MimeHeaders.RoundTripIff` | src/gpglib/mimegpgheader.c:150-394 | parsing a printed header returns it if and only if it is well formed |
| `MimeHeaders.EmptyAttributeIsLost` | src/gpglib/mimegpgheader.c:150-394 | a header that does not survive printing and parsing |
| `MimeHeaders.ParsePrinted` | src/gpglib/mimegpgheader.c:150-394 | what parsing returns for a printed header whose parts are free of separators |
| `MimeHeaders.ParsedSurvives` | src/gpglib/mimegpgheader.c:150-394 | for every text: what was parsed survives printing and parsing, but for a last empty attribute |
| `MimeHeaders.ParsedAttributesAreGood` | src/gpglib/mimegpgheader.c:176-290 | the parser returns only attributes that can be printed |
| `MimeHeaders.UnquotePlain` | src/gpglib/mimegpgheader.c:220-270 | a value without quotes, backslashes and semicolons is read as it stands |
| `MimeHeaders.UnquoteEscaped` | src/gpglib/mimegpgheader.c:220-270 | every quoted value is read back, with its quotes and backslashes |
| `MimeHeaders.QuotedIs` | src/gpglib/mimegpgheader.c:362-394 | a value is quoted exactly when it holds anything but letters, digits, dashes and underscores |
| `MimeHeaders.PrintExample` | src/gpglib/mimegpgheader.c:362-394 | a header in print |
| `MimeHeaders.GetAfterSet` | src/gpglib/mimegpgheader.c:296-360 | setting an attribute is seen under every spelling of its name and under no other |
| `MimeHeaders.SetIs` | src/gpglib/mimegpgheader.c:308-360 | setting changes the first attribute of that name and no other, or adds one behind all others |
| `MimeHeaderLoops.StripTrailingSpace` | src/gpglib/mimegpgheader.c:140-148 | everything up to the last character that is no space |
| `MimeHeaderLoops.ValuePass` | src/gpglib/mimegpgheader.c:215-270 | both passes count the same length, and the second fills exactly the buffer of that length |
| `MimeHeaderLoops.ReadValue` | src/gpglib/mimegpgheader.c:215-270 | the two passes return the value and the position behind it |
| `MimeHeaderLoops.ParseMimeHeader` | src/gpglib/mimegpgheader.c:150-294 | the loop ends for every text and returns what the specification says |
| `MimeHeaderLoops.PrintMimeHeader` | src/gpglib/mimegpgheader.c:362-394 | the text printed is that of the specification |
| `MimeHeaderLoops.EscapeValue` | src/gpglib/mimegpgheader.c:375-390 | quotes and backslashes are escaped and nothing else |
| `MimeHeaderLoops.GetMimeAttr` | src/gpglib/mimegpgheader.c:296-306 | the value of the first attribute of that name, ignoring case |
| `MimeHeaderLoops.SetMimeAttr` | src/gpglib/mimegpgheader.c:308-360 | replaces, adds or removes the first attribute of that name and keeps the others in order |
| `SharedSync.BuiltHolds` | src/maildir/maildirshared.c:442-499 | the database holds, for exactly the stripped names of the visible files, a full name that strips to it |
| `SharedSync.StripIs` | src/maildir/maildirshared.c:471-478 | the stripped name is what stands before the last colon, or all of it |
| `SharedSync.BuiltKeepsLast` | src/maildir/maildirshared.c:442-499 | of several files with the same stripped name the last one listed is kept |
| `SharedSync.Db.Build` | src/maildir/maildirshared.c:442-499 | the loop stores exactly that database |
| `SharedSync.NewNameStrips` | src/maildir/maildirshared.c:736-739 | the name of a new link strips to the key it was made from |
| `SharedSync.PassOk` | src/maildir/maildirshared.c:514-620 | a pass over a directory succeeds exactly when every entry that is to stay is a readable link that is right or can be replaced |
| `SharedSync.PassFailure` | src/maildir/maildirshared.c:595-613 | a pass that fails takes away the entry it fails at, has settled those before it and leaves those behind it |
| `SharedSync.PassEntry` | src/maildir/maildirshared.c:532-617 | in a successful pass an entry stays exactly when it is hidden or the first for a message still shared, and then links to its current full name |
| `SharedSync.PassDb` | src/maildir/maildirshared.c:550-556 | what is left in the database are the messages without an entry |
| `SharedSync.PassSettles` | src/maildir/maildirshared.c:514-620 | a successful pass leaves one right link for each message it takes out of the database |
| `SharedSync.Directory.Update` | src/maildir/maildirshared.c:514-677 | the loop over the directory changes links and database as the specification of a pass says, failures included |
| `SharedSync.Directory.AddNew` | src/maildir/maildirshared.c:681-751 | succeeds exactly when no link fails, and then has added exactly one link for each message left |
| `SharedSync.SettledIsInSync` | src/maildir/maildirshared.c:753-832 | cur and new together are in sync with the shared folder |
| `SharedSync.Sync` | src/maildir/maildirshared.c:799-831 | succeeds under exactly the stated condition, and then each shared message has exactly one link, to its current full name, and nothing else is visible |
| `SharedSync.SettledRelinks` | src/maildir/maildirshared.c:582-603 | in a directory that is right every link is accepted again exactly when it is short enough for the buffer |
| `SharedSync.SettledStays` | src/maildir/maildirshared.c:514-620 | a second pass succeeds under exactly that condition and changes nothing |
| `SharedSync.LongNameIsRefused` | src/maildir/maildirshared.c:560-603 | a shared name 95 characters longer than the local one is linked, is then in sync, and makes the next pass fail |
| `SharedSync.LongNameExists` | src/maildir/maildirshared.c:736-739 | there is such a name |
| `QuotaLog.StrOffT` | src/numlib/strofft.c:14-37 | the digits put down backwards are the signed decimal |
| `QuotaLog.ParseQuotaString` | src/maildir/maildirquota.c:225-251 | the last number before an S and the last before a C, other characters being passed over |
| `QuotaLog.RecordReadsBack` | src/maildir/maildirquota.c:217-217 | every record, of either sign and any width, is read as the change it was written for |
| `QuotaLog.RecordExample` | src/maildir/maildirquota.c:536-587 | a record in print |
| `QuotaLog.HeaderReadsBack` | src/maildir/maildirquota.c:536-564 | the first line gives back the quota it was written for |
| `QuotaLog.HeaderExample` | src/maildir/maildirquota.c:536-564 | a first line in print |
| `QuotaLog.LogReopens` | src/maildir/maildirquota.c:153-222 | below 5120 bytes the file reopens with its quota and the sum of all changes; beyond, with its quota and the request to recalculate |
| `QuotaLog.MaildirSize.Open` | src/maildir/maildirquota.c:117-223 | the loop over the lines learns what the specification says |
| `QuotaLog.MaildirSize.Add` | src/maildir/maildirquota.c:525-587 | one more change has been logged |
| `QuotaLog.MaildirSize.Recalculate` | src/maildir/maildirquota.c:433-464 | a new file with the old quota and one record of the count |
| `QuotaLog.MaildirSize.Reopens` | src/maildir/maildirquota.c:153-222 | at any time, opening the file gives back what was logged since it was begun |
| `QuotaLog.CheckOneOrder` | src/maildir/maildirquota.c:299-320 | a size fits exactly when it is not over the quota; the percentage never falls as the size grows, and is 100 at the quota |
| `QuotaLog.CheckQuota` | src/maildir/maildirquota.c:275-320 | fits exactly when both limits hold; the percentage is the greater of the two shares, each the quotient of size and quota in units of 1 or 1024, rounded toward zero, and 0 without a limit |
| `QuotaLog.ShareIsUnique` | src/maildir/maildirquota.c:299-320 | there is only one such share |
| `SizeTag.MaildirRequota` | src/maildir/maildirrequota.c:15-43 | the scan and copies give the retagged name of the specification |
| `SizeTag.RequotaIs` | src/maildir/maildirrequota.c:15-43 | the size is put behind the base name, in place of one that is there, and the flags stay |
| `SizeTag.RequotaTwice` | src/maildir/maildirrequota.c:15-43 | setting the size twice is setting it to the second value, for every name |
| `SizeTag.MaildirParseQuota` | src/maildir/maildirparsequota.c:15-44 | the forward and the backward scan read the last tag before the flags |
| `SizeTag.ParsedSizeIs` | src/maildir/maildirparsequota.c:15-44 | the size read is that of the tag, and none is read without one |
| `SizeTag.RequotaParses` | src/maildir/maildirparsequota.c:15-44 | the size read is the size set, unless the name had two tags before its flags: then it is what it was |
| `SizeTag.SecondTagStays` | src/maildir/maildirparsequota.c:15-44 | a name with two tags whose size stays the second one |
| `SizeTag.SameMessage` | src/maildir/maildirfilename.c:107-149 | the paired walk decides equality of names without flags and sizes: names with the same base name match, names with different ones do not |
| `SizeTag.CanonicalIs` | src/maildir/maildirfilename.c:107-149 | without its size and flags a name is its base name |
| `SizeTag.RequotaIsSame` | src/maildir/maildirfilename.c:107-149 | a name with its size set anew still matches the old one |
| `SizeTag.MaildirFilename` | src/maildir/maildirfilename.c:52-154 | the file itself, or one that matches, whenever there is one; among names with at most one size, in its place before the flags, one with the same base name and never another |
| `Timers.RunIsScheduled` | src/pcp/pcpdtimer.c:17-80 | after any run of installs and triggers the list holds exactly the timers last installed, by alarm, first in first out among equals |
| `Timers.AscendingPairs` | src/pcp/pcpdtimer.c:37-41 | the order holds between any two places of the list |
| `Timers.TimerList.Unlink` | src/pcp/pcpdtimer.c:23-31 | the timer is taken out of both chains, which stay mutual reverses |
| `Timers.TimerList.Link` | src/pcp/pcpdtimer.c:43-61 | the timer is put into both chains at its place |
| `Timers.TimerList.Detach` | src/pcp/pcpdtimer.c:21-32 | a timer that is on the list leaves it, and the others keep their order |
| `Timers.TimerList.Find` | src/pcp/pcpdtimer.c:37-41 | the first timer with a later alarm |
| `Timers.TimerList.Place` | src/pcp/pcpdtimer.c:43-61 | the list has one more entry, at the place found |
| `Timers.TimerList.Install` | src/pcp/pcpdtimer.c:17-62 | the linked list is the list of the run with one more install, for every clock and interval; afterwards the list tells its members by their alarms exactly when the new alarm is not 0 |
| `Timers.TimerList.Triggered` | src/pcp/pcpdtimer.c:64-80 | the linked list is the list of the run with one more trigger; a timer without an alarm changes nothing |
| `Timers.TimerList.ListIsScheduled` | src/pcp/pcpdtimer.c:17-80 | at any time the linked list is scheduled as the run says |
| `DotStuffing.StuffedArrives` | src/pcp/pcpd.c:417-451 | from any state the receiver gets no more than was sent, and exactly that when no dot is hidden from the sender by a carriage return |
| `DotStuffing.WireArrivesIff` | src/pcp/pcpnet.c:1210-1280 | the text arrives without its carriage returns, up to one added line end, and the receiver stops behind the dot line, if and only if no dot is hidden |
| `DotStuffing.WireArrives` | src/pcp/pcpnet.c:1210-1280 | text without carriage returns always arrives so |
| `DotStuffing.StuffedLine` | src/pcp/pcpnet.c:1233-1243 | line by line: a line that begins with a dot gets another one, every other stays |
| `DotStuffing.ReceivedLine` | src/pcp/pcpd.c:417-451 | line by line: a lone dot ends the text, and any other line loses one leading dot |
| `DotStuffing.WireExample` | src/pcp/pcpnet.c:1210-1280 | a text on the wire |
| `DotStuffing.HiddenDotEndsTheText` | src/pcp/pcpd.c:428-446 | a text that ends early, its rest being taken for commands |
| `DotStuffing.StuffedReturnsIff` | src/pcp/pcpnet.c:2007-2031 | from any state a carriage return is met before the dot line exactly when the text sent holds one |
| `DotStuffing.WireReturnsIff` | src/pcp/pcpnet.c:2007-2031 | the same for a whole text on the wire, whatever follows it |
| `DotStuffing.LoneReturnIsMet` | src/pcp/pcpnet.c:2013-2020 | a text that is never received |
| `DotStuffing.Retriever.Take` | src/pcp/pcpnet.c:2022-2049 | what one character does: the text received grows by it unless it is a held dot, or the dot line is complete |
| `DotStuffing.Sender.Put` | src/pcp/pcpnet.c:1233-1243 | one character behind all others, the buffer being written out when it is full |
| `DotStuffing.Sender.Send` | src/pcp/pcpnet.c:1214-1246 | what was written and buffered is the stuffed text of all chunks so far |
| `DotStuffing.Sender.Finish` | src/pcp/pcpnet.c:1258-1280 | everything is written, with the dot line |
| `DotStuffing.Receiver.Read` | src/pcp/pcpd.c:406-470 | the next characters of the event, at most as many as asked for, fewer only at its end |
| `DotStuffing.Retriever.Iterate` | src/pcp/pcpnet.c:2014-2096 | one round keeps received and remaining text together; a carriage return still to be met stays so until it is in hand, and then no round changes anything |
| `DotStuffing.Retriever.Receive` | src/pcp/pcpnet.c:1987-2108 | for every input: given enough rounds, the loop ends if and only if no carriage return comes before the dot line is complete, with exactly the text before it; otherwise it holds a carriage return for ever |
| `DotStuffing.EventPrinter.Message` | src/pcp/pcpd.c:1221-1244 | the chunk is printed stuffed, behind the reply line that the first chunk prints |
| `DotStuffing.EventPrinter.End` | src/pcp/pcpd.c:1246-1257 | the text is completed and ended, if any was printed |
| `DotStuffing.Upload` | src/pcp/pcpnet.c:1210-1280 | for all chunks, buffer sizes and requests the event arrives, and the input behind it is left |
| `DotStuffing.Retrieve` | src/pcp/pcpnet.c:1987-2108 | for all chunks and whatever follows: the text arrives, and the input behind it is left, if and only if it holds no carriage return; otherwise the retrieval never ends |
| `GmTime.YearLength` | src/pcp/pcpgmtime.c:20-25 | years and months have the lengths of the calendar |
| `GmTime.MonthDaysAre` | src/pcp/pcpgmtime.c:20-25 | the lengths of the months, and the leap years |
| `GmTime.DaysFollow` | src/pcp/pcpgmtime.c:20-44 | days are numbered one after the other, from the first day of 1970 |
| `GmTime.TmCmpIsDayOrder` | src/pcp/pcpgmtime.c:28-44 | tmcmp orders valid dates as their day numbers, and finds only equal dates equal |
| `GmTime.GmtimeIsUnique` | src/pcp/pcpgmtime.c:99-104 | no two valid dates and clocks are the same instant |
| `GmTime.FindDay` | src/pcp/pcpgmtime.c:99-125 | from every instant the day-stepping loops end on the day asked for |
| `GmTime.PcpGmtime` | src/pcp/pcpgmtime.c:46-130 | the one instant with the given fields, wherever the search started, or 0 for fields that are not accepted |
| `GmTime.PcpGmtimeS` | src/pcp/pcpgmtime.c:132-140 | the instant of the fields read from the text, or 0 |
| `GmTime.StringReadsBack` | src/pcp/pcpgmtime.c:132-153 | the fields printed are the fields read, for every year of four digits |
| `GmTime.PrintedExample` | src/pcp/pcpgmtime.c:142-153 | an instant in print |
| `GmTime.AcceptedYears` | src/pcp/pcpgmtime.c:53-56 | accepted instants are those from 1970 up to the year 3000 |
| `GmTime.TooLateIs` | src/pcp/pcpgmtime.c:53-56 | the first instant that is not accepted |
| `GmTime.TimeRoundTripIff` | src/pcp/pcpgmtime.c:132-153 | among the times whose year has four digits, a time survives being printed and read if and only if it is not before 1970 and before 3001 |
| `Base64.EncodedComesBack` | src/md5/md5_hash.c:26-42 | decoding the encoding of any bytes gives them back |
| `Base64.LettersAre` | src/md5/md5_hash.c:11-42 | the letters are those of RFC 4648, in its order |
| `Base64.EncodeExamples` | src/md5/md5_hash.c:26-42 | two test vectors of RFC 4648 |
| `Base64.EncodeInto` | src/md5/md5_hash.c:24-45 | the loop writes the encoding and the final zero into a buffer of exactly that size |
| `Base64.PutGroup` | src/md5/md5_hash.c:28-41 | one round writes one group of four characters |
| `Base64.SkipLetters` | src/authlib/authsaslfrombase64.c:24-26 | the longest run of letters at the front of the text |
| `Base64.SkipPads` | src/authlib/authsaslfrombase64.c:30-30 | the run of padding characters that follows |
| `Base64.Measure` | src/authlib/authsaslfrombase64.c:24-33 | how much of the text is taken, or refusal |
| `Base64.TakenIs` | src/authlib/authsaslfrombase64.c:24-33 | what is taken: letters, all padding behind them, whole groups, and no more than two characters that are no letters |
| `Base64.EncodedIsTaken` | src/authlib/authsaslfrombase64.c:24-31 | the whole of an encoding is taken, also with stray characters behind it as long as they and the padding are no more than two |
| `Base64.DecodeGroup` | src/authlib/authsaslfrombase64.c:35-51 | one group is decoded in place without touching a later one |
| `Base64.DecodeAll` | src/authlib/authsaslfrombase64.c:33-52 | the loop leaves the decoded bytes at the front of the buffer |
| `Base64.FromBase64` | src/authlib/authsaslfrombase64.c:11-53 | refuses exactly the texts that are not taken, and otherwise leaves what they decode to |
| `Base64.DecodeInPlace` | src/authlib/authsaslfrombase64.c:11-53 | an encoding in a buffer is decoded in place to the bytes it was made from |
| `Base64.StreamAppend` | src/rfc2045/base64.c:26-63 | two pieces of a stream are read as the stream is |
| `Base64.ZeroIsRead` | src/rfc2045/base64.c:26-63 | a zero in the stream is taken for a letter |
| `Base64.Base64Decode.Flush` | src/rfc2045/base64.c:70-108 | everything read so far has been decoded and delivered; at most three values wait at the front of the buffer |
| `Base64.Base64Decode.Decode` | src/rfc2045/base64.c:26-63 | the piece has been read, behind all pieces before it |
| `Base64.FlushGroups` | src/rfc2045/base64.c:78-95 | whole groups of values are put back before themselves as bytes, and what follows stays |
| `Base64.MoveDown` | src/rfc2045/base64.c:99-106 | what is left moves to the front |
| `Base64.DecodeChunks` | src/rfc2045/base64.c:12-68 | for every chunking the bytes delivered are what the whole stream decodes to, and the bytes encoded if it is an encoding with whatever but zeros scattered in it |
| `Base64.StreamComesBack` | src/rfc2045/base64.c:26-108 | whatever but zeros is scattered in an encoding, the streaming decoder gives back the bytes |

## Left out

- Negative times: an instant in the calendar index is a natural number; a negative `time_t`, and any value beyond the width of `unsigned long`, is not modelled.
- IsConflict: the callback for conflicts is not modelled; it can change the error code to that of a system error, but not whether the event conflicts.
- Conflicts: the same, on text.
- Dot-locks: acquiring the dot-lock and breaking a stale one is one parameter that says whether it succeeded.
- SweepIndex: the ageing of files in `.tmp` and `.lock` that follows it is not modelled.
- UncancelEvent: a new index that cannot be opened is not told apart from one that cannot be written, which may leave the error code of a conflict in place of none.
- NewEventId: a failed allocation is not modelled.
- Cleanup: a booking expires after one hour as in the source; the purge interval is a parameter. A failed write leaves the lines before it, as one without further space does.
- Listing and retrieving events from the calendar directory, and access control lists.
- BookedSince: a sign before a booking time, which `sscanf` would take, is not modelled.
- WriteIndex: an index with a line that holds no tab is not covered; no operation writes one.
- Qsort: the C library's sort stands as an insertion sort whose contract is that of any sort.
- Search: the text and pattern hold no NUL; a failed allocation of the table is not modelled.
- Md5: the 64-byte compression function and its constants are a parameter; nothing is said about collisions.
- Hmac: the limits of 2^32 bytes come from the `unsigned` lengths of the source; other hash functions are covered only by `HashPaddedKey`, which takes the block size.
- GetBoundary: the source makes up boundaries until one is good; the model takes the list of those it makes up and may find none.
- GoodBoundary: the search for a boundary inside an error message is not modelled.
- Sign: running gpg, its output and its exit code are not modelled; the signature is any text.
- FindBoundary: what it copies to the output is not modelled.
- CheckSign: `read_headers` before the body, the closing delimiter and the quoted-printable decoding of the signature part behind it are not modelled.
- Decrypting and encrypting in `mimegpg.c`: they share the loops modelled here and add process plumbing.
- Sync: the shortcut by time stamps, `maildir_purgetmp` and `maildir_getnew` happen before; each directory is read as one snapshot; a link that cannot be created ends the work, as in the source.
- StrOffT: numbers are unbounded; the most negative `off_t`, whose negation overflows, is not modelled.
- Recalculate: counting the messages in the folders and the race check by modification times are not modelled; the count is a parameter.
- LogReopens: asks that the header line fit the buffer, which every quota of machine width does.
- Open: reading the file in several pieces, and read errors, are not modelled.
- Iterate: the callback for the headers only, which reads on inside the loop, is not modelled.
- Receive: a run without end is one that is not over after any number of rounds.
- Upload: time-outs of the connection and write errors are not modelled; input that ends early is.
- PcpGmtime: `localtime` and `mktime` are one parameter, the instant they find or their failure.
- TimeRoundTripIff: years of five digits and more, which the fixed width of four does not fit, are not covered.
- FromBase64: a character whose code is not a byte does not exist; the zero that the streaming decoder takes for a letter is modelled but no text contains it.
- MaildirFilename: opening the directory and making the path are not modelled; names are given in the order they are read.
- Authentication modules, network and process plumbing, locale-dependent date parsing and the web interface.
