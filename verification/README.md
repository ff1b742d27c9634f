# Verification of multipath-tools cores

This project models the most intricate parts of multipath-tools in Dafny and proves what they are
relied on for.  Each core is one module (or a few); the C library, the kernel, storage and other
threads appear as nondeterministic choices or as parameters.  `dafny verify dfyconfig.toml` checks
everything.

| file | what it models |
|---|---|
| `Runner.dfy` | runner threads: every atomic access is one step, a run is any interleaving of worker and owner |
| `AsyncChecker.dfy` | the asynchronous path checker as a client of the runner |
| `LogRing.dfy` | the log ring: variable-length records in one byte buffer, with rewind and drop |
| `Reservations.dfy` | persistent reservations over many paths, against a unit written from sections 5.6 and 6.12 of SPC-3 (T10/1416-D) |
| `Alias.dfy` | user-friendly names, the search for a free id, the bindings table |
| `DmTable.dfy`, `Words.dfy` | the device-mapper table printer and parser |
| `Options.dfy` | count-prefixed option strings: what the configuration reader accepts, adding a feature |
| `Crc32.dfy` | CRC-32 (section 3.2.9 of IEEE 802.3), bitwise and table driven |
| `MergeSort.dfy` | the stable merge sort, with the in-place indirect branch |
| `MpTable.dfy` | merging of the `multipaths` section, which relies on that stability |
| `Strbuf.dfy`, `ConfigParser.dfy` | the quoting printer, the tokenizer, and reading a value back |
| `PathOrder.dfy` | round-robin ordering of a path group over host adapters |
| `PgCompare.dfy` | comparing the path groups of two maps |
| `CStrings.dfy`, `Basics.dfy` | strcmp; what all modules share |

Main results, hardest first:

- **Runner.** In every interleaving the context is freed at most once, by whoever drops the last
  reference, and no enabled step touches it afterwards; `pthread_cancel` hits only a thread that has
  not left its cleanup; what `check_runner` copies is the function's final output.  When everything
  is at rest the context has been freed *if and only if* no cancellation found the status Idle and
  none was acted on inside the final log message of the cleanup.  A schedule is given for each of the
  two leaks.  Over every run, a released runner not cancelled while Idle takes a bounded number of
  steps outside its function and ends.  A runner is cancelled by a release or by a check that finds its
  deadline passed, and by nothing else; once a check has found that, the runner is over when the check
  returns.  What `check_runner` answers is given for every run of the call, and `release_runner` returns
  after at most nine steps.
- **Reservations.** A successful release without unregistration leaves no reservation under the
  map's key even if the path that held it is down, every usable path is registered, and no usable
  path was ever unregistered while I/O was possible.  This holds although any command may fail, may
  take effect when reported as failed, and threads run in any order.  Reserving and then releasing
  leaves no reservation, whatever happened to unit and paths in between, if multipathd stored its flags
  and answered; the flags it keeps are given for every service action.  If nothing fails, a registration
  succeeds *if and only if* some usable path can register, a release *if and only if* no other type is
  reserved, and a RESERVE *if and only if* the unit is free, a usable path holds it, or multipathd knows
  that a path which is down may.  A failing call that updated the
  key leaves the old key stored *exactly unless* the reply to that update was lost or the restoring
  update was refused; a failing call that keeps the new key is shown.
- **Log ring.** The byte ring, run on any operations, gives the answers of a ring of records as a
  value.  For every area of at least 528 bytes that is a FIFO queue; for every area of 256 to 527
  bytes there is a run that delivers a text other than the one stored, because the link written
  through the stale tail hits it; for every area below 272 bytes, and for none above, there is a run
  in which a record reaches behind the area.  From 272 bytes on a message is dropped *if and only if*
  no free stretch between the live records has room for it.
- **Alias search.** The one-pass search returns the least id whose name is neither bound nor in use,
  whatever names other maps use, *if and only if* the ids it looks at ascend and are exactly those of
  the bound names.  Strictly sorted bindings without a blank behind their letters meet this.  With a
  blank, one strictly sorted table is reported as unsorted and another hides an unused id.
- **Device-mapper table.** Assembled tables parse back.  Their features are the words that were there,
  and `queue_if_no_path` and `retain_attached_hw_handler` exactly when the settings ask for them.  An
  option comes back word for word *if and only if* its first word counts the words separated by
  blanks.  The configuration reader also accepts tabs as separators, for which the round trip fails.
  The parser uses a missing word as a number *if and only if* the text ends in a blank and its last
  word is the device of a path that has arguments, which is a test on the words alone.
- **CRC.** Table driven equals bitwise for every seed and buffer; any change inside four
  consecutive bytes is detected.  The generating polynomial and the EFI form have their published values.
- **Sort and merge.** The sort's result is the only sorted list that keeps the order of equivalent
  elements; cycle following applies exactly the permutation found; the merged table has one entry
  per WWID with the last setting of every field, and unset fields exactly where no entry sets them.
- **Quoting.** Every C string survives printing, tokenizing, validation and `set_value`, and so does
  a plain word, with any blanks and a comment around it; what `set_value` gives is stated for the
  tokens of any line.  Between quotes there is never more than one token.  Validation of a tokenized
  line fails *if and only if* it starts with an opening brace, lacks a value, or has an empty quoted
  string in the place of the keyword followed by two texts.  The last case is reached by the line `"" a b`.
- **Path order and comparison.** With its allocations succeeding, the alternating loop ends *if and
  only if* its groups hold as many paths as are wanted; then it permutes, and takes strict turns
  over adapters and, within each, over hosts.  A group of nothing but SCSI paths of the four protocols is
  reordered if nothing fails.  When storing an adapter group fails unnoticed, another is stored and no
  later allocation fails, the call never returns; the result 0 means a permutation *if and only if*
  every path could be put back and no group that was not stored had taken a path.  `pgcmp` decides
  equality of the multisets of groups when no path occurs twice, and finds no difference between two
  different maps when one does.

Where code and documentation differ, the code is modelled.

## Model

| member | source | states |
|---|---|---|
| `Runner.StepKeepsInv` | libmpathutil/runner.c:43-243 | one inductive invariant over status word, reference count and both program counters is kept by every atomic step of either side |
| `Runner.RunKeepsInv` | libmpathutil/runner.c:43-243 | the invariant holds after every schedule |
| `Runner.FreedOnceAndNeverTouchedAgain` | libmpathutil/util.c:386-425 | in every reachable state: freed at most once, only when both sides dropped their reference, and no step that would touch the context is possible after the free |
| `Runner.CancelTargetsLiveThread` | libmpathutil/runner.c:112-158 | pthread_cancel is issued only to a thread that has not left cleanup_context, the swap after it finds CANCELLED, cancel_runner needs at most two passes and returns only CANCELLED or DEAD |
| `Runner.CopiedDataIsFinal` | libmpathutil/runner.c:166-196 | the function runs at most once; copied bytes are a prefix of its final output, taken after it returned |
| `Runner.NotCancelledInTime` | libmpathutil/runner.c:166-196 | over every run without a release in which no check finds the deadline passed: never cancelled, no kill on its way, and a thread that has ended ran its function to the end and left DONE |
| `Runner.ExpiredIsEnded` | libmpathutil/runner.c:178-195 | after a check found the deadline passed, the runner is DONE, CANCELLED or DEAD in every later state in which the owner is between calls |
| `Runner.CheckAnswers` | libmpathutil/runner.c:166-196 | over every run of one check call: the answer for each status the call found and each outcome of its deadline test, and the data handed back for DONE |
| `Runner.ExpiredAnswers` | libmpathutil/runner.c:112-158 | over every run of a check that found the deadline passed: DEAD if the function was done after all, else CANCELLED |
| `Runner.CheckHandsBack` | libmpathutil/runner.c:188-194 | at DONE the function has returned and any number of bytes of its final output can be handed back |
| `Runner.StatusIsMonotone` | libmpathutil/runner.c:43-158 | over any continuation of any run DONE and DEAD are never left and a cancelled runner never becomes DONE |
| `Runner.FreedUnlessLeaked` | libmpathutil/runner.c:53-76 | at rest, freed if and only if no cancellation found IDLE and none was acted on in the log message before the last put_shared_ptr; what each leak leaves |
| `Runner.StuckForever` | libmpathutil/runner.c:64-67 | a worker waiting on CANCELLED after the owner left waits under every continuation |
| `Runner.ReleasedRunEnds` | libmpathutil/runner.c:43-109 | over every run after the release, unless cancelled while IDLE: a bounded number of worker steps outside the function, one always possible until the thread has ended, and then the context is freed unless cancelled in the log message |
| `Runner.ReleaseReturns` | libmpathutil/runner.c:112-164 | over every run from the call on, release_runner takes at most nine steps of its own, can always take the next, and never waits for the worker |
| `Runner.CancelBeforeStartLeaks` | libmpathutil/runner.c:131-138 | a concrete schedule in which the cancel-before-start branch leaks the context |
| `Runner.CancelInLogLeaks` | libmpathutil/runner.c:69-76 | a concrete schedule in which the thread is cancelled inside the final log message and the context leaks |
| `AsyncChecker.ReleasedExactlyOnce` | libmultipath/async_checker.c:69-210 | in a disciplined event log every runner that is no longer live was released exactly once, live and future ones never |
| `AsyncChecker.NotUsedAfterRelease` | libmultipath/async_checker.c:69-210 | no event after a release mentions that runner |
| `AsyncChecker.Checker.CheckRunnerState` | libmultipath/async_checker.c:97-142 | one use, then release exactly when done, dead, or cancelled with fewer than the allowed timeouts; the data returned and the exact number of timeouts in each case |
| `AsyncChecker.SecondTimeoutWaits` | libmultipath/async_checker.c:97-142 | after two timeouts a runner is kept until it has ended, and the count starts anew |
| `AsyncChecker.Checker.CheckPending` | libmultipath/async_checker.c:151-165 | without a runner the path state is returned and nothing happens; with one, the state for each status of the runner and what becomes of the runner |
| `AsyncChecker.Checker.Check` | libmultipath/async_checker.c:167-210 | a runner is obtained only when there is none, asynchronously and successfully; otherwise the direct result is returned; with a live runner, the state for each of its statuses |
| `AsyncChecker.Checker.Free` | libmultipath/async_checker.c:69-79 | releases a live runner and drops the context; a second call does nothing |
| `AsyncChecker.Drive` | libmultipath/async_checker.c:69-210 | any sequence of calls followed by free releases every runner exactly once and uses none afterwards |
| `LogRing.LiveRecordsDisjoint` | libmpathutil/log.c:130-187 | live records never overlap |
| `LogRing.StaleWriteMisses` | libmpathutil/log.c:152-187 | in an area of at least 528 bytes the write through the stale tail misses every new record |
| `LogRing.LogArea.constructor` | libmpathutil/log.c:43-76 | for every size: small sizes give the default area; the ring starts as the empty queue |
| `LogRing.LogArea.Reserve` | libmpathutil/log.c:149-172 | drops exactly if the ring as a value has no place; otherwise the tail is that place, in vacant bytes inside the area unless the record is too long for it |
| `LogRing.LogArea.Enqueue` | libmpathutil/log.c:130-187 | does what storing does on the ring as a value: place, split, what is kept of the truncated text, or drop; exactly when the record reaches behind the area |
| `LogRing.LogArea.Dequeue` | libmpathutil/log.c:201-228 | does what taking does on the ring as a value: delivers the first message with its priority and text, and removes it |
| `LogRing.DeliveredInOrder` | libmpathutil/log.c:130-228 | in a FIFO run the accepted messages are the delivered ones followed by what is queued |
| `LogRing.RunRing` | libmpathutil/log.c:130-228 | for every size and every sequence of operations the byte ring answers as the ring of records does |
| `LogRing.RingIsFifo` | libmpathutil/log.c:130-228 | from 528 bytes on every run is a run of a FIFO queue that never drops when empty |
| `LogRing.DroppedExactly` | libmpathutil/log.c:130-187 | over every run from 272 bytes on, in terms of the live records: a message is dropped if and only if no free stretch has room for it, else it is accepted and lies in free bytes behind the last record, or at the start when it does not fit there |
| `LogRing.DeliveredAsAccepted` | libmpathutil/log.c:130-228 | so over every run the accepted messages are the delivered ones, unchanged and in order, followed by what is queued |
| `LogRing.NoOverrun` | libmpathutil/log.c:152-175 | from 272 bytes on no record of any run reaches behind the area |
| `LogRing.ChangedMessage` | libmpathutil/log.c:130-228 | for every area of 256 to 527 bytes, a run that delivers a text other than the one it stored |
| `LogRing.OverrunReached` | libmpathutil/log.c:152-175 | for every area below 272 bytes, a run whose last record reaches behind the area |
| `Reservations.PreemptOnce` | libmpathpersist/mpath_persist_int.c:200-262 | after a preemption through one path no other path can repeat it, whether or not the key held the reservation: the preempted key is gone |
| `Reservations.PreemptUnregisters` | libmpathpersist/mpath_persist_int.c:200-262 | preempting a key that holds no reservation takes away exactly the registrations with it; the reservation stays unless all registrants held it and none is left |
| `Reservations.Session.Round` | libmpathpersist/mpath_persist_int.c:445-494 | threads reaching the unit in any order, some failing to start: which registrations and which reservation result, and what every thread reports if nothing fails |
| `Reservations.Session.ProutCommon` | libmpathpersist/mpath_persist_int.c:200-262 | a preemption is carried out at most once, and exactly by the path reported as the one that succeeded; a successful reserve holds, a successful clear empties the unit; if nothing fails the answer is that of the first usable path that does not leave the command to others |
| `Reservations.Session.KeyMatches` | libmpathpersist/mpath_persist_int.c:661-681 | the three answers against what the unit reports |
| `Reservations.Session.CheckHolding` | libmpathpersist/mpath_persist_int.c:683-691 | true only if prhold is set and the unit reports this key; false with prhold set and all queries answered only if it does not |
| `Reservations.Session.PreemptMissing` | libmpathpersist/mpath_persist_int.c:274-346 | a reservation held under the old key is preempted, and a successful preemption moves it to the new key with its type; registrations with the new key survive; nothing happens on the unit without an old key |
| `Reservations.Session.CheckFailedPaths` | libmpathpersist/mpath_persist_int.c:355-388 | success means every path whose update failed is unusable now; when it fails |
| `Reservations.Session.RetryRound` | libmpathpersist/mpath_persist_int.c:512-556 | after the second round every path has the key or failed in a retryable way |
| `Reservations.Session.ProutReg` | libmpathpersist/mpath_persist_int.c:390-569 | success means every usable path is registered with the key; an ignoring re-registration leaves the reservation alone; unregistering can only take keys and the reservation away; if nothing fails, success when some usable path can register, a conflict when none can, an error without a usable path |
| `Reservations.Session.PreemptSuspended` | libmpathpersist/mpath_persist_int.c:599-634 | while suspended nothing is exposed; what the unit holds after each kind of extra work |
| `Reservations.Session.PreemptSelf` | libmpathpersist/mpath_persist_int.c:585-644 | success leaves the map resumed, registered unless unregistration was asked for, and the reservation held, released or gone as requested; in every case I/O is exposed exactly if the map was resumed with a usable path that lacks the key |
| `Reservations.Session.ProutRel` | libmpathpersist/mpath_persist_int.c:693-813 | success leaves no reservation under the map's key even if the holder path was down, all usable paths registered, and no exposure in between; if nothing fails it succeeds exactly when no other type is reserved |
| `Reservations.Session.RegisterOut` | libmpathpersist/mpath_persist_int.c:928-954 | registering leaves every usable path with the new key; unregistering leaves none with the old one, and no reservation under it; what becomes of prhold |
| `Reservations.Session.CommonOut` | libmpathpersist/mpath_persist_int.c:955-995 | a successful reserve, or preemption of the holder (by its key, or by key 0 for all registrants), leaves the reservation held under the map's key with the requested type; a successful clear empties the unit; a successful preemption of a key that holds no reservation takes away its registrations and nothing else; if nothing fails registered paths get a reservation exactly when the unit is free, a usable path holds it, or an unusable one may and prhold is set, else a conflict, and clearing and preempting succeed; reserving, preempting others and a successful preemption of the own reservation leave every usable path registered and never expose one that is not |
| `Reservations.Session.SettleKey` | libmpathpersist/mpath_persist_int.c:857-905 | the exact key, stored key and result of the key update and the key checks, whatever becomes of the update |
| `Reservations.Session.Act` | libmpathpersist/mpath_persist_int.c:925-1002 | what a successful service action leaves on the unit and of prhold before the final update, and when it succeeds if nothing fails |
| `Reservations.Session.UpdateFlags` | libmpathpersist/mpath_persist_int.c:1011-1034 | prflag, prhold and the stored key after each service action that succeeded, for updates that multipathd stored |
| `Reservations.Session.ReserveOut` | libmpathpersist/mpath_persist_int.c:855-1035 | key checks fail exactly on a mismatch and never after an update; the exact stored key after every failing and successful call, whatever happens to the two updates; what each successful service action leaves on the unit; the exact prflag and prhold after success and failure; when a call succeeds if nothing fails |
| `Reservations.ReserveThenRelease` | libmpathpersist/mpath_persist_int.c:855-1035 | reserving and then releasing, with any change to the unit and the paths in between: both successful leave no reservation under the key, without an assumption on prhold; and the release does succeed if nothing fails |
| `Reservations.LostReplyKeepsNewKey` | libmpathpersist/mpath_updatepr.c:25-80 | a failing call that keeps the new key: the update is carried out but its reply is lost |
| `DevNames.ValueOfName` | libmultipath/alias.c:345-362 | formatting an id and reading its letters gives the id |
| `DevNames.NameOfValue` | libmultipath/alias.c:364-394 | reading letters and formatting gives the letters |
| `DevNames.SevenLetters` | libmultipath/alias.c:345-362 | every id up to INT_MAX fits the seven letters of the buffer |
| `DevNames.OrderAgrees` | libmultipath/alias.c:144-171 | alias_compar orders names of one prefix as their ids |
| `DevNames.AliasComparOrder` | libmultipath/alias.c:144-171 | alias_compar is a strict total order |
| `DevNames.FormatDevname` | libmultipath/alias.c:345-362 | filling the buffer from its end gives the bijective base-26 name, for exactly the positive ids |
| `DevNames.ScanDevname` | libmultipath/alias.c:364-394 | the scanning loop computes the scan function, with its overflow test |
| `DevNames.ScanInverse` | libmultipath/alias.c:345-394 | on blank-free suffixes scanning succeeds exactly on formatted ids from 1 to INT_MAX and returns them |
| `FreeId.WalkFindsLeast` | libmultipath/alias.c:432-465 | on ascending ids the search finds the least free id or none exists |
| `FreeId.SearchRightExactly` | libmultipath/alias.c:432-465 | the search returns the least id whose name is neither bound nor used by another map, for every use of names by other maps, if and only if the ids it looks at ascend and are exactly those of the bound names |
| `FreeId.SortedAscends` | libmultipath/alias.c:432-465 | strictly sorted blank-free bindings have ascending ids, so they are never reported as unsorted |
| `FreeId.SortedIsFaithful` | libmultipath/alias.c:419-465 | strictly sorted bindings without blanks behind their names meet that condition |
| `FreeId.BlankLooksUnsorted` | libmultipath/alias.c:376-390 | a strictly sorted table with a blank behind a name that is reported as unsorted |
| `FreeId.BlankHidesId` | libmultipath/alias.c:376-390 | a family of strictly sorted tables with a blank behind a name, for which an unused id is passed over |
| `FreeId.GetFreeId` | libmultipath/alias.c:432-465 | the loops with their wrap at INT_MAX return what the search function says |
| `Bindings.Table.ForAlias` | libmultipath/alias.c:105-123 | finds the first alias that agrees in the compared characters, or there is none |
| `Bindings.Table.ForWwid` | libmultipath/alias.c:125-142 | finds the first WWID that agrees in the compared characters, or there is none |
| `Bindings.Table.Add` | libmultipath/alias.c:173-206 | each result exactly when it applies; an added binding goes where the table stays strictly sorted, any other result changes nothing |
| `Bindings.Table.Delete` | libmultipath/alias.c:208-224 | removes the first binding of the WWID and nothing else |
| `Bindings.Table.Allocate` | libmultipath/alias.c:468-502 | exactly when an alias is returned; a failed file update restores the table exactly |
| `Bindings.Table.GetAlias` | libmultipath/alias.c:560-627 | the answer in every case: the old alias if bound to the WWID, else its first alias unless that is in use; none without the right to write, memory or the file; an unbound old alias that scans is kept verbatim; otherwise the least unused name whenever the search is right; a failure changes nothing |
| `Bindings.Serve` | libmultipath/alias.c:560-627 | over any sequence of requests the table stays strictly sorted, no binding changes, every alias handed out stays bound |
| `Words.SplitConcat` | libmpathutil/util.c:79-120 | a blank separates the words on its two sides |
| `Words.GetWord` | libmpathutil/util.c:79-120 | returns the next word without trailing white space; stays where it is at a last word with nothing behind it |
| `Words.PassWord` | libmpathutil/util.c:79-104 | passing over a word always advances |
| `Words.AtoiItoa` | libmultipath/dmparser.c:81-97 | printed numbers read back, and are words |
| `Words.AtoiDigits` | libmultipath/dmparser.c:190-205 | numbers are decimal, with an optional minus sign |
| `DmTable.Assemble` | libmultipath/dmparser.c:47-107 | the printing loops give the table text of the map with exactly the features its settings ask for, or fail exactly if a path has no device number |
| `DmTable.TextWords` | libmultipath/dmparser.c:81-99 | the words of an assembled table, in order |
| `DmTable.TableOfTwoPaths` | libmultipath/dmparser.c:81-99 | the table of one group of two paths, word for word |
| `DmTable.ReadCounted` | libmultipath/dmparser.c:136-183 | a count and as many words, merged with single blanks |
| `DmTable.Multipath.ReadPath` | libmultipath/dmparser.c:279-319 | one path: device number, I/O count, further arguments passed over |
| `DmTable.MoreArguments` | libmultipath/dmparser.c:305-319 | of several arguments of a path the first is its I/O count and the others are passed over |
| `DmTable.NoArguments` | libmultipath/dmparser.c:305-319 | a path without arguments keeps the I/O count |
| `DmTable.Multipath.ReadSelector` | libmultipath/dmparser.c:223-248 | the first group's selector is kept up to its argument count, later ones are passed over with the same count |
| `DmTable.Multipath.ReadGroups` | libmultipath/dmparser.c:218-320 | the loop over the groups fills selector, I/O count and device lists |
| `DmTable.GroupsOnlyAdd` | libmultipath/dmparser.c:218-320 | over any number of groups the groups that were there stay in front, one is added for each, and a selector is kept |
| `DmTable.Multipath.Disassemble` | libmultipath/dmparser.c:115-328 | the cursor-driven parser computes the parse of the text's words, for every text |
| `DmTable.ParseAdds` | libmultipath/dmparser.c:190-320 | a map that has a selector keeps it; its groups stay in front of those of the table unless the table has none |
| `DmTable.RoundTrip` | libmultipath/dmparser.c:47-328 | parsing an assembled well-formed map into a fresh map restores feature and handler words, initial group, I/O count, all device lists in order, and the selector up to its arguments |
| `DmTable.PreparedWellFormed` | libmultipath/dmparser.c:61-79 | adding features keeps a map well formed |
| `DmTable.Reload` | libmultipath/dmparser.c:47-328 | the same for the two methods run one after the other: the feature words that come back are those that were there, and queue_if_no_path and retain_attached_hw_handler if and only if they were there or the settings ask for them |
| `DmTable.NoFault` | libmultipath/dmparser.c:307-317 | a text that does not end in a blank never makes the parser use a missing word as a number |
| `DmTable.FaultExactly` | libmultipath/dmparser.c:115-328 | for every text the parser uses a missing word as a number if and only if the text ends in a blank and its words, tested by their positions and counts, end with the device of a path that has arguments |
| `DmTable.FaultReached` | libmultipath/dmparser.c:307-317 | a family of texts that make it do so |
| `DmTable.ComesBackExactly` | libmultipath/dmparser.c:136-183 | an option followed by more text comes back word for word if and only if its first word counts the others |
| `Options.SetArgStr` | libmultipath/dict.c:119-169 | the loop computes whether the word at the count index is a number in range, followed by white space or the end, and equal to the number of words behind it |
| `Options.AcceptedExactly` | libmultipath/dict.c:119-169 | a string without a line break is accepted if and only if the word at the index, between white space of any kind, is a number in range that counts the words behind it |
| `Options.LineBreakIsInsideWord` | libmultipath/dict.c:119-169 | a line break does not separate words |
| `Options.AcceptedIsCounted` | libmultipath/dict.c:119-169 | what set_arg_str accepts has the right count for the parser if blanks are its only white space |
| `Options.AddFeatureCounts` | libmultipath/structs.c:608-670 | adding a feature to such a string keeps it so: the count goes up by one, the words stay, the feature comes last; or nothing changes |
| `Options.AddFeatureExactly` | libmultipath/structs.c:608-670 | whatever white space separates the words: a feature that is there already changes nothing, nor does one added to a string without a number in front; any other comes last and the count becomes the number of words |
| `Options.FeaturesExactly` | libmultipath/dmparser.c:61-79 | the words of the features with which the map is printed are those wanted by the settings |
| `Options.FeaturesMean` | libmultipath/dmparser.c:61-79 | queue_if_no_path is among them if and only if it was before or no_path_retry says so, retain_attached_hw_handler likewise for its switch and the kernel version; all others stay in order and nothing else is added |
| `DmTable.TabDefeatsRoundTrip` | libmultipath/dict.c:125-151 | an option separated by a tab is accepted but does not come back |
| `Crc32.PolynomialsAgree` | kpartx/crc32.c:53-62 | both polynomial constants denote the same bits in transmission order |
| `Crc32.GeneratorExponents` | kpartx/crc32.c:53-62 | the polynomial is the one of section 3.2.9 of IEEE 802.3, exponent by exponent |
| `Crc32.LastBitLeavesPoly` | kpartx/crc32.c:53-62 | one bit sent last leaves the polynomial in the register |
| `Crc32.ShiftsInjective` | kpartx/crc32.c:53-62 | the shift register loses nothing |
| `Crc32.SplitByte` | kpartx/crc32.c:111-129 | eight shifts act on the first eight bits alone, the others only move up |
| `Crc32.CrcConcat` | kpartx/crc32.c:53-62 | the CRC of a concatenation is the CRC of the second part seeded with that of the first |
| `Crc32.CrcInjectiveInSeed` | kpartx/crc32.c:53-62 | different registers stay different whatever is fed to both |
| `Crc32.BurstDetected` | kpartx/crc32.c:53-62 | buffers of equal length that differ, but only inside four consecutive bytes, have different CRCs from every seed |
| `Crc32.EfiBurstDetected` | kpartx/gpt.c:80-83 | the same for efi_crc32 with its seed and final complement |
| `Crc32.EfiCheckValues` | kpartx/gpt.c:80-83 | efi_crc32 of nothing is zero, of four bytes of ones all ones |
| `CrcTables.FillTableLe` | kpartx/crc32.c:73-91 | the init loops fill the table with every index shifted eight times, given the recurrences of such a table |
| `CrcTables.InitLe` | kpartx/crc32.c:73-91 | crc32init_le builds that table |
| `CrcTables.Crc32Le` | kpartx/crc32.c:111-129 | the table-driven loop equals the bitwise definition for every seed and buffer |
| `CrcTables.CrcBitwise` | kpartx/crc32.c:53-62 | so does the one-bit-at-a-time loop |
| `CrcTables.FillTableBe` | kpartx/crc32.c:175-193 | the same for the big-endian table |
| `CrcTables.InitBe` | kpartx/crc32.c:175-193 | crc32init_be builds the big-endian table |
| `CrcTables.Crc32Be` | kpartx/crc32.c:214-232 | the table-driven big-endian loop equals the bitwise definition |
| `CrcTables.Checksum` | kpartx/crc32.c:376-387 | building a table and running its loop, either order, gives the bitwise CRC |
| `MergeSort.Sorts` | libmpathutil/msort.c:27-149 | the result is sorted, for every total preorder |
| `MergeSort.Permutes` | libmpathutil/msort.c:27-149 | the result is a permutation |
| `MergeSort.SortIsStable` | libmpathutil/msort.c:27-149 | equivalent elements keep their order |
| `MergeSort.SortSpecification` | libmpathutil/msort.c:27-149 | the result is the only sorted list that keeps the order of equivalent elements |
| `MergeSort.MergeLoop` | libmpathutil/msort.c:50-144 | the loop writes the merge of both halves to the buffer until one half is used up |
| `MergeSort.MergeBack` | libmpathutil/msort.c:146-148 | the final copies complete the merge; what is left of the second half is in place |
| `MergeSort.MsortWithTmp` | libmpathutil/msort.c:27-149 | the part of the array becomes its sort, everything else is left alone |
| `MergeSort.GatherSort` | libmpathutil/msort.c:182-197 | sorting pointers and sorting what they point to is the same |
| `MergeSort.FollowCycle` | libmpathutil/msort.c:204-223 | following one cycle fills exactly its positions with what their pointers say |
| `MergeSort.ApplyPointers` | libmpathutil/msort.c:199-223 | after all cycles every position holds the element its pointer pointed to |
| `MergeSort.Msort` | libmpathutil/msort.c:152-243 | directly or indirectly the array is sorted, or unchanged when the temporary area cannot be had |
| `MpTable.MergedFields` | libmultipath/config.c:414-422 | one merge, field by field: what the destination leaves open is taken, except empty strings |
| `MpTable.Table.DropInvalid` | libmultipath/config.c:543-551 | entries without a WWID are dropped, the others keep their order |
| `MpTable.Table.Sort` | libmpathutil/vector.c:202-208 | the slots are sorted by WWID, or unchanged without memory |
| `MpTable.Table.FoldDuplicates` | libmultipath/config.c:553-566 | neighbours with the same WWID are folded into the later one |
| `MpTable.Table.Merge` | libmultipath/config.c:538-567 | merge_mptable as a function of the table |
| `MpTable.OneEntryPerWwid` | libmultipath/config.c:538-567 | the result is strictly sorted, with exactly one entry for each WWID, the fold of its entries in file order |
| `MpTable.EntryIsFold` | libmultipath/config.c:538-567 | every entry of the merged table is the fold of the entries with its WWID, in file order |
| `MpTable.FoldedString` | libmultipath/config.c:486-494 | a string is that of the last entry that sets it; an empty one hides earlier ones and remains only if it comes last |
| `MpTable.FoldedNumber` | libmultipath/config.c:504-527 | a number is that of the last entry that sets it |
| `MpTable.FoldedKey` | libmultipath/config.c:496-502 | key, source and flags are taken together from the last entry with a source |
| `MpTable.FoldedStringOf` | libmultipath/config.c:486-494 | the string of a fold in all cases: set by the last entry that sets it, or by none |
| `MpTable.FoldedNumberOf` | libmultipath/config.c:504-527 | the number of a fold in all cases |
| `MpTable.LastSettingWins` | libmultipath/config.c:486-567 | every entry of the merged table has, field by field, the last setting in file order, and is unset where no entry sets the field |
| `Strbuf.Strbuf.Expand` | libmpathutil/strbuf.c:82-111 | room for the characters and a NUL with contents unchanged, or an error and no change |
| `Strbuf.Strbuf.AppendStr` | libmpathutil/strbuf.c:113-139 | appends the string, or fails without change |
| `Strbuf.Strbuf.CountQuotes` | libmpathutil/strbuf.c:166-167 | the number of quotes, modulo the width of the counter |
| `Strbuf.Strbuf.CopyDoubled` | libmpathutil/strbuf.c:178-186 | the memccpy loop writes the string with every quote doubled |
| `Strbuf.Strbuf.AppendQuoted` | libmpathutil/strbuf.c:155-192 | appends exactly the quoted form, or fails without change |
| `ConfigParser.ReplacePairs` | libmpathutil/parser.c:286-294 | the replacement loop makes one quote of every doubled one |
| `ConfigParser.SkipString` | libmpathutil/parser.c:261-275 | scanning stops at a quote that is not doubled |
| `ConfigParser.AllocStrvec` | libmpathutil/parser.c:198-310 | the cursor-driven tokenizer computes the tokens of every line |
| `ConfigParser.TokensAreTexts` | libmpathutil/parser.c:190-196 | every token is the marker or a non-empty text, so is_quote stays inside it |
| `ConfigParser.OneTokenInside` | libmpathutil/parser.c:259-285 | between quotes there is at most one token |
| `ConfigParser.ValidateFailsExactly` | libmpathutil/parser.c:405-487 | any tokenized line fails validation exactly for an opening brace, a missing value that is not one of a section, or an empty quoted string as keyword followed by two texts |
| `ConfigParser.EmptyQuotesReachLastBranch` | libmpathutil/parser.c:471-484 | lines of the last kind, which reach the last error branch |
| `ConfigParser.UndoubleDouble` | libmpathutil/parser.c:286-294 | undoubling inverts doubling |
| `ConfigParser.TokensOfQuoted` | libmpathutil/parser.c:230-306 | the quoted form of a string gives marker, string, marker; of the empty string just two markers |
| `ConfigParser.RoundTrip` | libmpathutil/parser.c:198-358 | keyword, blanks and quoted string tokenize, pass validation, and set_value gives the string back, whatever its characters |
| `ConfigParser.PlainTokens` | libmpathutil/parser.c:198-310 | indentation, keyword, blanks and a plain word, perhaps with blanks and a comment behind, are just keyword and word |
| `ConfigParser.PlainValue` | libmpathutil/parser.c:198-487 | such a line passes validation and set_value gives the word |
| `ConfigParser.SetValueExactly` | libmpathutil/parser.c:323-358 | for the tokens of every line: none without a second token, the second word if it is no marker, the empty string for empty quotes or a lone quote, else the text between quotes; none without memory |
| `ConfigParser.OtherLines` | libmpathutil/parser.c:198-310 | blank and comment lines have no tokens; lines that open and close a section have keyword and brace, and the brace |
| `ConfigParser.SectionsAreValid` | libmpathutil/parser.c:405-487 | the last two pass validation |
| `ConfigParser.PrintOption` | libmpathutil/strbuf.c:127-192 | the printed option line |
| `ConfigParser.Echo` | libmpathutil/parser.c:323-358 | printing, tokenizing, validating and reading give the original string |
| `PathOrder.PathGroup.CollectAdapter` | libmultipath/configure.c:92-132 | all paths of the adapter move into its group, no path is lost, whatever fails |
| `PathOrder.PathGroup.Restore` | libmultipath/configure.c:136-151 | all paths are put back, one group after the other, except those whose slot cannot be allocated |
| `PathOrder.PathGroup.OneAdapter` | libmultipath/configure.c:58-132 | one group is formed and stored, or formed and lost because storing it failed unnoticed |
| `PathOrder.PathGroup.GroupByHostAdapter` | libmultipath/configure.c:48-152 | success: all paths in groups of distinct adapters, each host group holding the paths of its adapter and host in their order, except those of groups that could not be stored; failure: all back in the path group, except those and paths without a slot; how many groups could not be stored; it succeeds if nothing fails and every path has an adapter |
| `PathOrder.TurnedCloser` | libmultipath/configure.c:165-201 | every turn takes a path or brings a host group that still has paths closer |
| `PathOrder.LoopEndsExactly` | libmultipath/configure.c:165-201 | with allocations succeeding the loop ends if and only if the groups hold as many paths as are wanted |
| `PathOrder.NothingStops` | libmultipath/configure.c:165-201 | with fewer paths in the groups than wanted, no number of turns ends the loop |
| `PathOrder.TurnedRuns` | libmultipath/configure.c:165-201 | every turn keeps all paths and the order of the first round |
| `PathOrder.TurnsAlternate` | libmultipath/configure.c:165-201 | turn n belongs to adapter n modulo their number and there, by the same rule, to one host, whose first remaining path it takes |
| `PathOrder.PathGroup.OrderByAltAdapters` | libmultipath/configure.c:157-207 | with enough paths in the groups it terminates; on success the wanted number of paths, none invented or lost, the first ones from all adapters in turn; a permutation when all are wanted |
| `PathOrder.PathGroup.RrOptimizePathOrder` | libmultipath/configure.c:212-258 | result 0 means a permutation up to paths without a slot and paths taken by groups that could not be stored, and a permutation if and only if there are no such paths; when reordered, every group was stored, the first k paths come from the k distinct adapters, and the whole order is that of strict turns over adapters and hosts; it is reordered whenever nothing fails and all are SCSI paths of the four protocols; the call never returns only if a group was not stored, and then no number of turns ends its loop |
| `PathOrder.LeakedExactly` | libmultipath/configure.c:70-152 | paths are leaked if and only if a group that was not stored had taken one |
| `PgCompare.AllocBitfield` | libmpathutil/util.c:343-358 | none for length 0 or without memory, else an empty field of that length in as few words as hold it |
| `PgCompare.Bitfield.Set` | libmpathutil/util.h:134-141 | sets the bit in range, leaves all others alone |
| `PgCompare.Bitfield.IsSet` | libmpathutil/util.h:124-132 | tells whether the bit is set; out of range it is not |
| `PgCompare.PathCmp` | libmultipath/configure.c:419-436 | zero exactly if all paths of the first group are in the second |
| `PgCompare.FindGroup` | libmultipath/configure.c:472-500 | the scan marks and compares groups as its specification on sets of marked positions does |
| `PgCompare.ScanLocates` | libmultipath/configure.c:472-500 | for maps without repeated paths that specification finds the one group equal to the given one, marks it, and nothing else |
| `PgCompare.Partner` | libmultipath/configure.c:457-501 | if both maps are equal up to order, the next group's partner is still unmarked |
| `PgCompare.SameExactly` | libmultipath/configure.c:438-503 | for maps without repeated paths the specification of the loops holds exactly if the multisets of groups as sets are equal |
| `PgCompare.RepeatsDefeatPgCmp` | libmultipath/configure.c:419-503 | with a repeated path, pgcmp finds no difference between two different maps |
| `PgCompare.PgCmp` | libmultipath/configure.c:438-503 | 0 exactly if the specification of the loops holds, given memory for a large bitfield; when no path occurs twice within a map, exactly for equal multisets of groups as sets |
| `CStrings.StrcmpTrans` | libmultipath/config.c:530-536 | strcmp is transitive, strictly if one step is strict |

## Left out

- `Runner`: the CPU load of the waiting loop, and `pthread_create` errors other than "no thread"; the clock, so whether a deadline has passed is an input of each test; memory order is sequential consistency.
- `AsyncChecker`: copying of messages and names in `async_check_init` and `runner_callback`, and the deep-sleep test hook.
- `LogRing.LogArea.Enqueue`: nothing is claimed about the ring after a padded record has reached behind an area of less than 272 bytes, because what lies there is not part of the model.
- `LogRing`: formatting with vsnprintf is reduced to truncation; locking in `log_enqueue` and `log_dequeue` is one call at a time.
- `Reservations`: `all_tg_pt`, SPEC_I_PT and transport ids, APTPL and other flag bits; PREEMPT AND ABORT acts as PREEMPT; sense decoding is one nondeterministic status.
- `Reservations.Session.ReserveOut`: starts where the map and its key have been read, so a file-sourced key equals the stored one; the flags stored with the key are not modelled.
- `Bindings`: reading, checking and writing the bindings file (the write is one step that succeeds or fails), and the NULL-alias branch of `alias_compar`.
- `DmTable`: `queue_mode`, path index fields, `disassemble_status`, and allocation failures, which all end in the failure outcome; the tests that set `retain_hwhandler` and the retry state are inputs.
- `Options.AddFeatureCounts`: features of one word, which are those that `assemble_map` adds, and a string that is present; the count is not cut to 32 bits, which never shows for a count that counts words.
- `Options.AcceptedExactly`: strings without a line break, which strtol skips as white space while set_arg_str keeps it inside a word; `LineBreakIsInsideWord` is what is said about others.
- `Crc32`: registers are sequences of bits in transmission order; byte swapping of the result and the multi-bit table variants other than eight bits.
- `MergeSort.Msort`: elements are values; the copying widths (4 bytes, 8 bytes, words, memcpy) are one assignment, and the two halves of the pointer area are two arrays.
- `MpTable.Table.Merge`: entries are values in slots, so freeing an entry and moving a string pointer from one to the other are not captured; without memory for the sort only neighbours are merged, and nothing more is claimed.
- `MpTable`: `merge_hwe`, `merge_pce` and `factorize_hwtable`.
- `ConfigParser`: allocation failures inside the tokenizer, reading lines from a file (a value with a newline is split there), and the keyword tree.
- `PathOrder.PathGroup`: adapter and host groups are values in vectors; the adapter name of a path is the same at every sysfs read.
- Everything else: ioctls, libdevmapper, udev, sockets, path selection and checking, hardware tables, option parsing, log texts; they are inputs here or would add only easy members.
