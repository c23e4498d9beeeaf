# Verified model of the native policy engine

This project models the native part of vpnhide that decides what an app may see: the code that
accepts a control snapshot, publishes it to concurrent readers, decides per call whether a hook
fires, rewrites kernel output in place, and accounts for every hit. `dafny verify dfyconfig.toml`
checks all of it.

* **Diagnostic lease** (`DiagScope`, `LeaseMachine`, `LeaseInvariant`, `LeaseRuns`, `LeaseLife`, `DiagWire`,
  `DiagCommands`):
  the four-phase RAW lease. `DiagScope.Scope` is the object with its gate and fields;
  `LeaseMachine` interleaves the same critical sections between any number of threads over
  reference-counted pid objects whose addresses are recycled at count zero, with a 64-bit clock
  and file handles; `LeaseRuns` holds the statements about every state of every run, and
  `LeaseLife` what each section brings about, that a revoked grant stays ended and that every call
  ends. `DiagWire` reads the command text and `DiagCommands` writes it.
* **Control wire** (`Wire`, `Lexing`, `TargetSet`, `ConfigWire`, `ConfigText`, `Truncation`,
  `TruncationExact`, `Printer`, `Reports`): lines,
  tokens, exact-width numerals, the header, the sorted-on-parse target set, the config parser, the
  truncation fuse, the printers and what reading them back gives. `ConfigText` is the producer of
  configurations, whose text the parser reads back to the same targets, and `Lexing` fixes the lexer
  on texts put together in the plain way. `TruncationExact` says exactly which
  payloads the fuse does not protect.
* **From text to decision** (`Policy`, `KmodControl`, `Seqlock`, `SeqlockSafety`, `SeqlockAttempts`,
  `SeqlockWriters`): the naive rule,
  the `.ko` control object that refines it, and the KPM's seqlock, one load or store a step.
* **Statistics** (`StatsTable`, `StatsProgress`, `StatsPager`, `StatsPages`, `StatsRows`, `StatsHistory`,
  `StatsIndex`): the compare-and-swap table with its calls counted from the run, the pages read from
  it while it grows and what reading them gives, and the `.ko` sorted index with its resumable read.
* **In-place filters** (`Bytes`, `Compaction`, `ProcLines`, `ProcTables`, `Netlink`, `NetlinkMessages`,
  `Dirents`, `Iovecs`):
  `Compaction.Filter` is the one-line meaning (cut into records, drop the hidden ones, keep the
  unparsable tail); each mutating loop refines it. For each format there is also the writer's side,
  rows, messages or entries put into bytes, and the filter is shown to remove exactly those that tell
  of a VPN.
* **SIOCGIFCONF** (`Ifconf`, `IfconfWalk`, `IfconfMemory`) and **paths** (`Paths`, `PathClass`, `PathLaws`).

The VPN-name matcher is an arbitrary predicate and the hash an arbitrary function everywhere.
Clocks, caller identities, allocation results and kernel memory are parameters.

## Findings

* Truncation fuse: the count protects what precedes `end`. With `end` the only such line and the
  last record every prefix fails closed (`Truncation.TruncationFailsClosed`), and neither leading
  zeros nor non-ASCII lines matter. In general an accepted payload can be cut into another accepted
  configuration exactly when some beginning of its lines already closes the fuse and says something
  else (`TruncationExact.CutsEscapeExactly`); `end 0` followed by `debug 1` is such a payload
  (`Reports.RecordsAfterEndCanBeLost`).
* `classify_path` looks at every other component of a run of adjacent `net` components:
  `/sys/net/net/tun0` is not recognised (`PathClass.MissedBelowTwoNets`). `PathClass.HiddenExactly`
  says precisely which paths are, and `PathLaws.KindExactly` gives the kind of every normalised path.
* The two line filters differ on names followed by CR and on names of 16 bytes or more
  (`ProcLines.CrTellsThemApart`, `ProcLines.LongNamesTellThemApart`); `ProcLines.FiltersAgree` is
  the common ground, for a matcher that rejects the empty name.
* A non-final stats page repeats its cursor exactly when its first scan finds nothing and the next
  one does (`StatsPages.FormatPage`), which takes a slot claimed in between;
  `StatsPages.CursorCanRepeat` is such a history. Following cursors still ends, since slots are never
  freed.

## Model

| member | source | states |
|---|---|---|
| `DiagScope.DeadlinesDoNotWrap` | kmod/shared/vpnhide_diag_scope.h:127-219 | an accepted arm or activation stores the exact sum, never a wrapped one |
| `DiagScope.ReplayNeverExtends` | kmod/shared/vpnhide_diag_scope.h:130-219 | one arm, register or activate section replayed under the live nonce leaves the deadline alone; a released nonce cannot be armed again |
| `LeaseRuns.DeadlineMovesOnce` | kmod/shared/vpnhide_diag_scope.h:127-219 | over any stretch of a run in which one grant lives its deadline is arm time plus max_lease until its single activation, and that activation's time plus the armed duration from then on |
| `DiagScope.Scope.TryLock` | kmod/shared/vpnhide_diag_scope.h:65-75 | the gate is taken exactly when it was free, without waiting |
| `DiagScope.Scope.Clear` | kmod/shared/vpnhide_diag_scope.h:77-87 | the lease is released and its reference handed to the caller |
| `DiagScope.Scope.Current` | kmod/shared/vpnhide_diag_scope.h:89-109 | RAW for exactly the active, unexpired, matching identity, said in the fields; every reference taken is put; the lease is unchanged |
| `DiagScope.Scope.Arm` | kmod/shared/vpnhide_diag_scope.h:111-152 | the new lease in its fields and the result of every branch, and the old identity put once |
| `DiagScope.Scope.Register` | kmod/shared/vpnhide_diag_scope.h:154-192 | first registration keeps the reference; every other path returns it |
| `DiagScope.Scope.Activate` | kmod/shared/vpnhide_diag_scope.h:194-222 | only a live registered lease with the nonce becomes active, until now plus duration |
| `DiagScope.Scope.Revoke` | kmod/shared/vpnhide_diag_scope.h:223-245 | a free gate and the lease's own nonce: answered Ok, every field but the nonce cleared and its reference put; another nonce: answered stale and nothing changed |
| `DiagScope.Scope.ReadBack` | kmod/shared/vpnhide_diag_scope.h:247-273 | an expired lease is reclaimed on readback, and what is shown is the lease left |
| `LeaseLife.RevokeEnds` | kmod/shared/vpnhide_diag_scope.h:223-245 | in the machine, the section of a revoke or close quoting the lease's nonce leaves it released with no identity, hands its reference over and answers Ok; quoting another it changes nothing |
| `LeaseLife.SnapshotReclaims` | kmod/shared/vpnhide_diag_scope.h:247-273 | a readback ends exactly an expired grant |
| `LeaseLife.ArmArms` | kmod/shared/vpnhide_diag_scope.h:111-152 | an arm takes over exactly from a grant that is over and under a new nonce, with the deadline and terms given; otherwise the lease stays |
| `LeaseLife.RegisterChecks` | kmod/shared/vpnhide_diag_scope.h:165-173 | exactly a live lease with this nonce and the caller's uid gets to the identity |
| `LeaseLife.RegisterRegisters` | kmod/shared/vpnhide_diag_scope.h:172-190 | a live armed lease with the caller's tid becomes registered to the caller; every other is left and the reference kept for putting |
| `LeaseLife.ActivateActivates` | kmod/shared/vpnhide_diag_scope.h:194-222 | a live registered lease with this nonce becomes active until now plus its duration; every other stays |
| `LeaseLife.CurrentAnswers` | kmod/shared/vpnhide_diag_scope.h:89-109 | the caller that is the active lease's identity, with its uid and before the deadline, is answered RAW, load by load |
| `LeaseLife.HandleRemembers` | kmod/shared/vpnhide_diag_proc.h:152-192 | the handle through which an arm succeeded quotes its nonce, so that closing it revokes that grant |
| `LeaseLife.OnlyItsNonceEndsALiveGrant` | kmod/shared/vpnhide_diag_scope.h:77-273 | a live grant is ended or displaced only by a revoke or close that quotes its nonce |
| `LeaseLife.NoRawAfterRevoke` | kmod/shared/vpnhide_diag_scope.h:89-245 | in every run, each RAW answer after a grant's revocation rests on a grant armed, registered and activated after it |
| `LeaseLife.GateIsNeverAbandoned` | kmod/shared/vpnhide_diag_scope.h:65-75 | in every run a taken gate has a thread inside it |
| `LeaseLife.EveryCallEnds` | kmod/shared/vpnhide_diag_scope.h:60-273 | every step of a call brings its end nearer: at most seven, whatever the others do |
| `LeaseRuns.RawOnlyToRegistrant` | kmod/shared/vpnhide_diag_scope.h:89-245 | in every run, each RAW answer went to the lifetime that first registered under the live grant with the armed tid and the armed uid as its caller's, answering a caller with that uid, after an activation quoting its nonce, before any clearing and before activation plus duration, hence before arm plus max_lease plus duration; that a revoke does clear is `LeaseLife.RevokeEnds` |
| `LeaseRuns.RecycledIdentityNeverMatches` | kmod/shared/vpnhide_diag_scope.h:89-109 | whenever the stored pointer equals a thread's pid object, that thread is the registrant itself |
| `LeaseRuns.ReferencesConserved` | kmod/shared/vpnhide_diag_scope.h:77-192 | at every point, references taken minus put are one for a registered or active phase plus those in locals, and per object the exact count |
| `LeaseRuns.NoDanglingReference` | kmod/shared/vpnhide_diag_scope.h:140-273 | no step of any operation meets a freed object |
| `LeaseRuns.NonceArmedOnce` | kmod/shared/vpnhide_diag_scope.h:130-147 | two successive arms never carry the same nonce |
| `LeaseRuns.CloseEndsOnlyItsOwnGrant` | kmod/shared/vpnhide_diag_proc.h:152-192 | a handle quotes only nonces that were armed, and closing it ends no grant with another nonce; its own it ends by `LeaseLife.RevokeEnds` |
| `LeaseRuns.InvAlways` | kmod/shared/vpnhide_diag_scope.h:60-273 | the whole invariant in every state of every interleaving |
| `DiagWire.ParseCommand` | kmod/shared/vpnhide_diag_wire.h:95-135 | a command is returned exactly for the texts the grammar spells it with |
| `DiagWire.ReadsExactly` | kmod/shared/vpnhide_diag_wire.h:95-135 | reading and the grammar are equivalent, in both directions |
| `DiagWire.TakeDecimal` | kmod/shared/vpnhide_diag_wire.h:52-69 | the decimal reader takes the whole digit run and accepts exactly the values that fit 32 bits |
| `DiagWire.TakeToken` | kmod/shared/vpnhide_diag_wire.h:70-94 | sixteen lower-case digits, not zero, with their 64-bit value |
| `DiagWire.TakeWord` | kmod/shared/vpnhide_diag_wire.h:40-51 | the cursor moves exactly past a matching word |
| `DiagCommands.EncodedReadsBack` | crates/protocol/src/diagnostic_raw.rs:158-191 | what the producer writes for a command is read as that command, for every command, and it writes one exactly when some text says it |
| `Wire.NextLine` | kmod/shared/vpnhide_logic.h:341-359 | the next line of the payload without newline and one CR |
| `Wire.LineSignificant` | kmod/shared/vpnhide_logic.h:367-387 | blank, comment and non-ASCII lines are told apart |
| `Wire.NextToken` | kmod/shared/vpnhide_logic.h:394-412 | the tokens of a line, in order |
| `Wire.ReadDigits` | kmod/shared/vpnhide_logic.h:428-528 | accepts precisely the digit strings whose mathematical value fits, and returns it |
| `Wire.TokDecimal` | kmod/shared/vpnhide_logic.h:428-448 | 64-bit decimal numerals exactly |
| `Wire.TokHexBare` | kmod/shared/vpnhide_logic.h:457-486 | bare hexadecimal numerals of the given width exactly |
| `Wire.TokHex` | kmod/shared/vpnhide_logic.h:493-528 | the same after a `0x` prefix |
| `Wire.ParseHeader` | kmod/shared/vpnhide_logic.h:538-583 | the first significant line decides the kind, at the current version only |
| `Lexing.TokensOfWeave` | kmod/shared/vpnhide_logic.h:394-412 | the tokens are the words, whatever runs of blanks and tabs stand around them |
| `Lexing.LinesOfEnded` | kmod/shared/vpnhide_logic.h:341-359 | the lines are those put together, ended by newline or CR and newline, the last perhaps by neither |
| `Lexing.WhatCounts` | kmod/shared/vpnhide_logic.h:367-387 | blank lines and comments, indented or not, do not count; every other line does |
| `Lexing.DigitsAre` | kmod/shared/vpnhide_logic.h:457-486 | both cases of the sixteen digits have their values |
| `Lexing.NothingElse` | kmod/shared/vpnhide_logic.h:457-486 | no other character is a digit |
| `Lexing.CurrentHeaders` | kmod/shared/vpnhide_logic.h:538-583 | exactly `vpnhide 2 config`, `vpnhide 1 stats` and `vpnhide 1 status` are current headers |
| `TargetSet.Put` | kmod/shared/vpnhide_logic.h:638-665 | the sorted array of the map with this uid set, or refusal exactly when a new uid does not fit |
| `TargetSet.LastRecordWins` | kmod/shared/vpnhide_logic.h:624-665 | the map gives each uid the mask of its last record |
| `TargetSet.SortedListUnique` | kmod/shared/vpnhide_logic.h:624-665 | a map has one strictly ascending listing |
| `ConfigWire.ParseConfig` | kmod/shared/vpnhide_logic.h:687-754 | for every text: rejection exactly when header, uid tokens, capacity or the `end` count are wrong; otherwise the ascending listing of the last-wins map, the default mask and the debug value; what a text says is fixed by `ConfigText.TargetsLine`, `ConfigText.OtherLines` and `ConfigText.PrintedReadsBack` |
| `ConfigWire.ParseRecord` | kmod/shared/vpnhide_logic.h:704-749 | one record adds to the reading what its tokens say |
| `ConfigWire.ParseUids` | kmod/shared/vpnhide_logic.h:732-742 | the uid tokens of a `targets` record enter the set under its mask (`ConfigText.UidTokens`), or the payload can no longer be accepted |
| `ConfigText.UidTokens` | kmod/shared/vpnhide_logic.h:732-742 | the i-th uid token adds the uid of its value under the mask; one malformed token spoils the payload |
| `ConfigText.TargetsLine` | kmod/shared/vpnhide_logic.h:726-742 | for any `targets` line: token 1 is the mask and token 2 + i the i-th uid of the records added, and nothing else changes |
| `ConfigText.OtherLines` | kmod/shared/vpnhide_logic.h:701-750 | what `debug`, `default` and `end` lines set, and that every other or malformed line says nothing |
| `ConfigText.FormatConfig` | crates/protocol/src/lib.rs:450-477 | the producer's loops give the text of the grouped configuration |
| `ConfigText.GroupedPermutes` | crates/protocol/src/lib.rs:456-473 | grouping by mask loses and adds no target |
| `ConfigText.TextOfSet` | crates/protocol/src/lib.rs:442-449 | the text is a function of the set of targets alone |
| `ConfigText.PrintedReadsBack` | crates/protocol/src/lib.rs:450-477 | reading a printed configuration gives exactly its groups, default mask, debug flag and count |
| `ConfigText.PrintedMeansItself` | crates/protocol/src/lib.rs:450-477 | printing and parsing is the identity: accepted exactly when the uids fit, with the same map from uid to mask |
| `ConfigText.PrintedDecides` | crates/protocol/src/lib.rs:450-477 | a printed configuration fires exactly the owned hooks of the mask a uid is listed under, else of the default |
| `TruncationExact.CutsEscapeExactly` | kmod/shared/vpnhide_logic.h:687-754 | an accepted payload has an accepted prefix with another meaning if and only if some beginning of its lines closes the fuse and reads differently |
| `TruncationExact.ClosedEarlyCanBeCut` | kmod/shared/vpnhide_logic.h:743-754 | whenever the first lines of an accepted payload close the fuse and read to another configuration, the byte prefix with those lines is accepted |
| `Truncation.TruncationFailsClosed` | kmod/shared/vpnhide_logic.h:687-754 | with `end` the only such line and the last record, every byte prefix is rejected or means the same configuration |
| `Reports.RecordsAfterEndCanBeLost` | kmod/shared/vpnhide_logic.h:743-754 | an instance: `end 0`, `debug 1` has an accepted prefix without the debug setting |
| `Printer.HexRoundTrip` | kmod/shared/vpnhide_logic.h:800-817 | reading a printed hexadecimal number returns it, for every width |
| `Printer.DecRoundTrip` | kmod/shared/vpnhide_logic.h:782-797 | the same for decimal numbers |
| `Printer.Buf.Putc` | kmod/shared/vpnhide_logic.h:769-774 | the text grows by the character; memory past the capacity is never written |
| `Printer.Buf.PutHex` | kmod/shared/vpnhide_logic.h:800-817 | the number's text is appended, within the digit scratch |
| `Printer.Buf.PutDec` | kmod/shared/vpnhide_logic.h:782-797 | the number's text is appended, within the digit scratch |
| `Reports.FormatStatus` | kmod/shared/vpnhide_logic.h:863-886 | the full length is returned and the buffer holds as much of the report as fits |
| `Reports.StatusReadsBack` | kmod/shared/vpnhide_logic.h:863-886 | every field of a printed status reads back as the value printed |
| `Reports.ParseStatsAfter` | kmod/shared/vpnhide_logic.h:595-620 | the cursor is 0 if absent; a malformed or repeated one refuses the request |
| `Reports.CursorRoundTrip` | kmod/shared/vpnhide_logic.h:595-620 | echoing a page cursor selects exactly that cursor |
| `Policy.DecideIsNaive` | kmod/vpnhide_kmod.c:210-266 | a list built from an accepted text decides as the naive rule on the text does; which hooks a mask names is `Policy.LowestHook` and `Policy.NextHook` |
| `Policy.GateIsSound` | kmod/kpm/vpnhide_kpm.c:190-198 | a hook outside the OR mask fires for nobody |
| `Policy.LowestHook` | kmod/generated/hook_ids.h:38-41 | hook 0 is the lowest bit of a mask |
| `Policy.NextHook` | kmod/generated/hook_ids.h:38-41 | the bit of each further hook is twice the one before, and bits from 32 up are none |
| `Policy.OwnedHooks` | kmod/generated/hook_ids.h:44-46 | of a mask exactly hooks 0 to 9, 25 and 27 are kept |
| `Policy.OnlyOwnedFire` | kmod/vpnhide_kmod.c:259-266 | whatever is configured, only those hooks fire, and only for app uids |
| `KmodControl.Control.constructor` | kmod/vpnhide_kmod.c:184-198 | before any write nothing is targeted |
| `KmodControl.Control.Write` | kmod/vpnhide_kmod.c:358-424 | an accepted text replaces the whole configuration; any other changes nothing |
| `KmodControl.Control.Commit` | kmod/vpnhide_kmod.c:400-418 | the arrays hold the new list, stale tail entries are out of reach, and the OR mask is the new one |
| `KmodControl.Control.TargetMask` | kmod/vpnhide_kmod.c:210-254 | bisection gives what a scan of the current list would |
| `KmodControl.Control.HookActive` | kmod/vpnhide_kmod.c:259-266 | gate plus bisection is the naive rule on the last accepted text, and never for a RAW holder; with `ConfigText.PrintedDecides`, in terms of the configuration sent |
| `SeqlockSafety.AnswerIsOneConfig` | kmod/kpm/vpnhide_kpm.c:247-313 | an answer is the naive rule on the text of one configuration in force during the call, never a mix |
| `SeqlockSafety.AlwaysInBounds` | kmod/kpm/vpnhide_kpm.c:278-298 | every access of every attempt, doomed ones included, is inside the arrays |
| `SeqlockSafety.ReaderTerminates` | kmod/kpm/vpnhide_kpm.c:270-312 | a call makes at most 1999 loads whatever writers do |
| `SeqlockAttempts.GivesUpOnlyAfterFour` | kmod/kpm/vpnhide_kpm.c:270-313 | in every run a reader that gave up answers 0, and each of its four attempts, in that one call, met an odd sequence or one that moved before its recheck |
| `SeqlockAttempts.UndisturbedIsAnswered` | kmod/kpm/vpnhide_kpm.c:270-313 | while the sequence stays even and unchanged a call is on its first attempt and ends with the decision of the configuration in force |
| `SeqlockSafety.InvAlways` | kmod/kpm/vpnhide_kpm.c:204-239 | one staging holder, odd sequence exactly while it writes, and the memory of an even sequence is the last published configuration; that the locks are released is `SeqlockWriters.LocksAlways` |
| `SeqlockSafety.WritersAfterWrite` | kmod/kpm/vpnhide_kpm.c:1829-1869 | each store of a publication keeps that; that the publication comes about is `SeqlockWriters.AcceptedIsPublished` |
| `SeqlockWriters.LocksAlways` | kmod/kpm/vpnhide_kpm.c:204-239 | in every run the staging is taken exactly while one writer is past its claim and the gate exactly while it stands between its odd bump being due and opening the gate |
| `SeqlockWriters.NeverRefused` | kmod/kpm/vpnhide_kpm.c:204-222 | so a writer that owns the staging never finds the gate closed |
| `SeqlockWriters.TurnedAwayExactly` | kmod/kpm/vpnhide_kpm.c:224-239 | a call is turned away exactly while another writer is past its claim |
| `SeqlockWriters.WriterTerminates` | kmod/kpm/vpnhide_kpm.c:1829-1869 | every step of a writer brings its end nearer: at most 492, whatever readers and writers do |
| `SeqlockWriters.AcceptedIsPublished` | kmod/kpm/vpnhide_kpm.c:1829-1869 | when the writer of an accepted configuration has returned it has been published, next to those in force before |
| `StatsTable.OneSlotPerUid` | kmod/kpm/vpnhide_kpm.c:315-342 | in every run a uid owns at most one slot, with no empty slot before it on its probe sequence |
| `StatsTable.RefusedOnlyWhenFull` | kmod/kpm/vpnhide_kpm.c:315-342 | a uid is refused only when every slot belongs to another one |
| `StatsTable.CallsConserved` | kmod/kpm/vpnhide_kpm.c:315-354 | per uid and hook, the calls made in a run are those that bumped their counter once, those that came back refused and those in flight; none is in flight for ever by `StatsProgress.CallEnds` |
| `StatsTable.CountersAreCompletedCalls` | kmod/kpm/vpnhide_kpm.c:315-354 | a slot's counters are exactly its owner's completed, not refused calls, counted from the run's steps, modulo 64 bits |
| `StatsTable.CompletedHaveSlots` | kmod/kpm/vpnhide_kpm.c:315-354 | whoever completed a call owns a slot |
| `StatsTable.NothingIsForgotten` | kmod/kpm/vpnhide_kpm.c:315-354 | slots are never freed and accepted hits never decrease over a run |
| `StatsProgress.EveryStepCounts` | kmod/kpm/vpnhide_kpm.c:315-354 | every step of every call lowers what is left of it, at most 482 |
| `StatsProgress.CallEnds` | kmod/kpm/vpnhide_kpm.c:315-354 | after at most 482 of its own steps a call was refused or has added one to its hook's counter in its uid's slot, and to no other |
| `StatsPager.NextUid` | kmod/kpm/vpnhide_kpm.c:356-375 | the least uid above the cursor among the slots loaded |
| `StatsPager.FormatRow` | kmod/kpm/vpnhide_kpm.c:377-400 | the row's exact text, at most 299 bytes, and nothing exactly for a uid without hits |
| `StatsPages.PutRows` | kmod/kpm/vpnhide_kpm.c:419-434 | rows ascend strictly past the cursor, lose no uid counted before, and leave room for the trailer; the first always fits |
| `StatsPages.FormatPage` | kmod/kpm/vpnhide_kpm.c:407-447 | the page's exact text within the buffer; a final page is complete; a non-final one stopped because the next row with the trailer did not fit or came too late; it repeats its cursor if and only if the first scan found nothing and the next one did, and then a slot was claimed meanwhile |
| `StatsPages.CursorCanRepeat` | kmod/kpm/vpnhide_kpm.c:419-434 | a history with one claim between the two scans makes a page repeat its cursor |
| `StatsRows.RowReadsBack` | kmod/kpm/vpnhide_kpm.c:377-400 | a row is one line and reads back to its uid and exactly its non-zero counters under their hook ids |
| `StatsRows.PageReadsBack` | kmod/kpm/vpnhide_kpm.c:407-447 | a page's lines are its header, its rows in order, each reading back, and its trailer |
| `StatsPages.TrailerReadsBack` | kmod/kpm/vpnhide_kpm.c:435-445 | the trailer is four tokens whose numbers read back as written |
| `StatsPages.FollowPages` | kmod/kpm/vpnhide_kpm.c:402-447 | following cursors from 0 ends, and lists in strictly ascending order every uid counted at the start, while slots are claimed |
| `StatsPages.ExactWhenUnchanging` | kmod/kpm/vpnhide_kpm.c:402-447 | on an unchanging table the uids listed are exactly the counted ones, each with its counters |
| `StatsHistory.RunsGrow` | kmod/kpm/vpnhide_kpm.c:315-375 | however a reader's loads fall among the steps of a run of concurrent hits, it sees a growing history |
| `StatsHistory.FollowPagesOfRun` | kmod/kpm/vpnhide_kpm.c:315-447 | pages followed during a run list, ascending, every uid that had completed a call at the start and only uids that had by the end |
| `StatsIndex.Stats.FindOrAdd` | kmod/vpnhide_kmod.c:287-321 | the row linear search finds, or a new last one; none only when full; the index stays a sorted permutation |
| `StatsIndex.Stats.Bisect` | kmod/vpnhide_kmod.c:294-301 | bisection splits the index at the uid |
| `StatsIndex.Stats.InsertOrder` | kmod/vpnhide_kmod.c:311-314 | the index with the new row number inserted, nothing else moved |
| `StatsIndex.Stats.RecordHit` | kmod/vpnhide_kmod.c:323-340 | the rows after the hit; uncounted hooks change nothing |
| `StatsIndex.Stats.ShowRow` | kmod/vpnhide_kmod.c:466-478 | a record shows its row, and nothing past the last |
| `StatsIndex.InsertKeeps` | kmod/vpnhide_kmod.c:279-314 | inserting a row number at the split keeps a permutation sorted by uid |
| `StatsIndex.SplitFinds` | kmod/vpnhide_kmod.c:294-307 | lookup through the index equals linear search |
| `StatsIndex.HitKeeps` | kmod/vpnhide_kmod.c:279-340 | a row's uid and place never change |
| `StatsIndex.CountsAreHits` | kmod/vpnhide_kmod.c:323-340 | after any hits, each row's counters are its uid's hits modulo 64 bits, and only a full table leaves a uid without a row |
| `StatsIndex.EachRowOnce` | kmod/vpnhide_kmod.c:426-490 | a finished read has every row that existed at its start exactly once, first and in order, and no uid twice, whatever hits and re-shown records interleave |
| `StatsIndex.ReadEnds` | kmod/vpnhide_kmod.c:430-442 | a read is over after exactly 163 records shown |
| `StatsIndex.ShowEmits` | kmod/vpnhide_kmod.c:466-490 | the record after the first three and n rows is the next row as it is then |
| `StatsIndex.HookSlots` | kmod/generated/hook_ids.h:95-132 | exactly hooks 0 to 9, 25 and 27 are counted, each reported under its own id |
| `Compaction.FilterTwice` | zygisk/src/filter.rs:39-63 | compaction is idempotent for every self-framing record format |
| `Compaction.ReparsesAsKept` | zygisk/src/filter.rs:395-455 | the output parses as exactly the kept records, then the same tail |
| `Compaction.SplitIsWhole` | zygisk/src/filter.rs:404-452 | records and tail are the whole buffer |
| `Compaction.CopyDown` | kmod/shared/vpnhide_logic.h:237-242 | the overlapping forward copy moves the bytes and touches nothing else |
| `Compaction.Settle` | zygisk/src/filter.rs:435-442 | one record is skipped or moved, never ahead of the read position |
| `Compaction.FinishTail` | zygisk/src/filter.rs:445-454 | the unparsable tail is kept verbatim |
| `ProcLines.CompactLines` | zygisk/src/filter.rs:39-63 | exactly the kept lines, in order; nothing from the new length on is touched |
| `ProcLines.FilterLines` | zygisk/src/filter.rs:76-139 | the route and last-field filters drop exactly the lines whose field names a VPN |
| `ProcLines.ExtractLastField` | zygisk/src/filter.rs:142-152 | the last blank-separated field |
| `ProcLines.CompactSeqLines` | kmod/shared/vpnhide_logic.h:172-248 | the lines from start to count are filtered; nothing before start or from the new end on is touched |
| `ProcLines.ExtractName` | kmod/shared/vpnhide_logic.h:196-228 | ifname holds the field as a C string, never written past its end |
| `ProcLines.LineFiltersIdempotent` | kmod/shared/vpnhide_logic.h:172-248 | both filters are idempotent |
| `ProcLines.AlikeExactlyOnSameName` | zygisk/src/filter.rs:76-152 | the two treat a line alike for every matcher exactly when they extract the same C string |
| `ProcLines.FiltersAgree` | kmod/shared/vpnhide_logic.h:172-248 | the two filters agree on buffers without CR whose names have at most 15 bytes |
| `ProcLines.CrTellsThemApart` | kmod/shared/vpnhide_logic.h:214-221 | a CR after the name separates them |
| `ProcLines.LongNamesTellThemApart` | kmod/shared/vpnhide_logic.h:197-205 | so does every longer name |
| `ProcTables.FirstIs` | zygisk/src/filter.rs:76-87 | the first field is what stands before the first tab |
| `ProcTables.LastIs` | zygisk/src/filter.rs:142-152 | the last field is what stands after the last space |
| `ProcTables.TablesAreFiltered` | zygisk/src/filter.rs:76-152 | of a table with the interface in the first or last column, both filters leave exactly the rows of other interfaces, byte for byte and in order |
| `Netlink.RouteOif` | zygisk/src/filter.rs:281-297 | the index of the first output-interface attribute, or that there is none |
| `Netlink.RuleHidesVpn` | zygisk/src/filter.rs:308-362 | some attribute names a VPN, or the last uid range steers this uid into a non-standard table |
| `Netlink.FilterNetlinkDump` | zygisk/src/filter.rs:395-455 | the buffer without exactly the messages that reveal a VPN, the rest in order, the tail verbatim, and no byte from the new length on touched |
| `Netlink.CleanStaysClean` | zygisk/src/filter.rs:395-455 | idempotent; the result's messages are exactly those that reveal nothing |
| `NetlinkMessages.AttrsRead` | zygisk/src/filter.rs:281-297 | the attributes written are the attributes read |
| `NetlinkMessages.RevealsIsTells` | zygisk/src/filter.rs:415-434 | a message's bytes reveal a VPN exactly when its index, its first output interface, a name or its uid range and table tell of one, said in numbers |
| `NetlinkMessages.DumpIsFiltered` | zygisk/src/filter.rs:395-455 | of a dump of any messages the filter leaves exactly those that tell of no VPN, byte for byte and in order |
| `Dirents.CompactDents` | zygisk/src/filesystem.rs:741-771 | the buffer without exactly the VPN-named entries, the tail verbatim |
| `Dirents.NameIsVpn` | zygisk/src/filesystem.rs:726-735 | the entry's C string name decides |
| `Dirents.EntriesStayFiltered` | zygisk/src/filesystem.rs:741-771 | idempotent; what is left are the visible entries |
| `Dirents.ListingIsFiltered` | zygisk/src/filesystem.rs:726-771 | of a listing of any entries the filter leaves exactly those not named after a VPN, byte for byte and in order |
| `Iovecs.PayloadLen` | zygisk/src/hooks.rs:1360-1374 | the returned length clamped to the exact total, saturation notwithstanding; refusal exactly for a null base with a length |
| `Iovecs.Gather` | zygisk/src/hooks.rs:1391-1415 | the first bytes of the concatenation, exactly when memory covers them |
| `Iovecs.Scatter` | zygisk/src/hooks.rs:1417-1437 | the data laid over the pieces from the front |
| `Iovecs.SpreadFlattens` | zygisk/src/hooks.rs:1417-1437 | laid over the pieces, the data becomes the front of the concatenation and every later byte stays |
| `Iovecs.RewritePayload` | zygisk/src/hooks.rs:1384-1438 | the concatenation becomes the filtered payload followed by the later bytes as they were; None leaves memory alone |
| `Iovecs.SplitInvariance` | zygisk/src/hooks.rs:1376-1438 | any two splits of the same bytes end with the same bytes and length |
| `Iovecs.Recvmsg` | zygisk/src/hooks.rs:1319-1347 | several descriptors: the result is lowered by exactly the bytes dropped, also when it exceeds the capacity |
| `Iovecs.RecvmsgOne` | zygisk/src/hooks.rs:1309-1317 | one descriptor: filtered in place when the first message is of a filtered type, left alone otherwise, with the same arithmetic |
| `Iovecs.OneIsRewritten` | zygisk/src/hooks.rs:1309-1347 | a reply filtered in place in one piece is what rewriting gives, so by split invariance any split of it ends with the same bytes and length |
| `Iovecs.FilterReply` | zygisk/src/hooks.rs:1451-1493 | a reply too short, of another first type or without indices is untouched; any other becomes the clean dump |
| `Ifconf.FilterIfconfBuf` | kmod/vpnhide_kmod.c:1545-1575 | the visible entries in order, the freed kernel slots cleared, the caller's later slots untouched |
| `Ifconf.LeftIsVisible` | kmod/vpnhide_kmod.c:1551-1563 | entries with terminated names, as the kernel writes them, stay byte for byte |
| `Ifconf.FillIsFiltered` | kmod/vpnhide_kmod.c:1545-1575 | of a fill of any labelled entries the compaction leaves exactly those whose label names no VPN |
| `Ifconf.UnterminatedName` | kmod/vpnhide_kmod.c:1551-1563 | a name that fills its 16 bytes is judged by its first 15 |
| `Ifconf.SizeProbe` | kmod/vpnhide_kmod.c:1590-1632 | the length lowered by what the fill would lose, not below 0 |
| `Ifconf.TwoStepQuery` | kmod/vpnhide_kmod.c:1545-1632 | the size answered equals the length a sufficient fill reports after compaction |
| `IfconfWalk.WalkNamespace` | kmod/kpm/ifconf_count.h:42-108 | ends on every memory graph within 4096 objects; accepts exactly when memory holds a closed device list that accounts for the expected addresses, and returns that list's hidden count |
| `IfconfWalk.OneList` | kmod/kpm/ifconf_count.h:42-108 | memory holds at most one such list, so an accepted count is the count |
| `IfconfMemory.ListsAreInMemory` | kmod/kpm/ifconf_count.h:42-108 | what the walk accepts is exactly a ring of device nodes linked both ways, each with an inet structure pointing back and a null-ended chain of its addresses, word for word |
| `IfconfWalk.ProjectLength` | kmod/kpm/ifconf_count.h:110-147 | a length is authorised exactly when one layout alone is verified and hides something; it is the length without the hidden entries, at least 0 and below the original |
| `IfconfWalk.BackendsAgree` | kmod/kpm/ifconf_count.h:94-102 | both backends hide the same number of a fill's entries |
| `Paths.NormalizeAbsolute` | zygisk/src/filesystem.rs:156-210 | the normal form, without leaving the 2048-byte and 96-entry buffers |
| `Paths.ResolveIsMeaning` | zygisk/src/filesystem.rs:169-208 | the result is the component stack: `.` dropped, `..` popped, never above the root |
| `Paths.FailsExactlyOnLimits` | zygisk/src/filesystem.rs:191-205 | refusal if and only if some stack on the way exceeds the buffers |
| `Paths.NormalTwice` | zygisk/src/filesystem.rs:156-210 | normalisation is idempotent |
| `PathLaws.Start` | zygisk/src/filesystem.rs:156-168 | the root is its own normal form and only absolute paths have one |
| `PathLaws.Stay` | zygisk/src/filesystem.rs:169-186 | a further slash or `.` leads nowhere else |
| `PathLaws.Down` | zygisk/src/filesystem.rs:191-207 | a plain component leads one level down, within 2048 characters and 96 levels, and is refused otherwise |
| `PathLaws.DownAndUp` | zygisk/src/filesystem.rs:187-207 | down and `..` is back where it was |
| `PathLaws.AboveRoot` | zygisk/src/filesystem.rs:187-190 | there is nothing above the root |
| `PathLaws.SamePlace` | zygisk/src/filesystem.rs:169-208 | from the same place the same way leads to the same place |
| `PathClass.ScanSys` | zygisk/src/filesystem.rs:277-295 | the cursor loop is the scan |
| `PathClass.ClassifyPath` | zygisk/src/filesystem.rs:266-301 | the classifier's branches and loops |
| `PathLaws.KindExactly` | zygisk/src/filesystem.rs:238-301 | for every normalised path, by its components: hidden exactly for a VPN name below one of the four settings directories or after an examined `net` below /sys; a listing exactly for those directories or a last `net` below /sys |
| `PathClass.HiddenExactly` | zygisk/src/filesystem.rs:266-301 | a normalised `/sys/` path is hidden exactly when an examined `net` is followed by a VPN name |
| `PathClass.HiddenWhenNoTwoNets` | zygisk/src/filesystem.rs:266-301 | without adjacent `net` components: exactly when any `net` is followed by one |
| `PathClass.MissedBelowTwoNets` | zygisk/src/filesystem.rs:277-295 | below two adjacent `net` components an interface is missed |

## Left out

- Weak memory ordering: atomics are sequentially consistent steps; the u32 wrap of `cfg_seq` is not modelled (the sequence is unbounded).
- 64-bit counter wrap in paging: `StatsPager.Later` assumes a counted uid stays counted, which `StatsHistory.RunsGrow` derives as long as nobody makes 2^64 calls for one uid and hook.
- Kernel attachment (kprobes, `hook_wrap`, register ABIs, offsets tables, `skb_trim`, RCU, RTNL) and every hook other than those above.
- User-memory faults, errno handling, memfd creation, companion sockets and policy files.
- The VPN-name tables and the public-address predicates: fixed tables.
- `builtin/security/vpnhide/core.c`: a copy of the `.ko` logic proved here.
- `filter_dev_buf` and the tcp/tcp6 filters of zygisk/src/filter.rs: further predicates for `ProcLines.CompactLines`, which is proved for any.
- The `.ko` reads its OR mask without the lock: a hook call racing a commit is not modelled, `KmodControl` takes calls one at a time.
- Seqlock: `debug_enabled` is not part of the published state, since no decision reads it.
- Masks are sets of hook ids rather than 32-bit words; `Policy.Hooks` reads them off the number.
- Text is `string`, of which byte strings are a part; binary buffers are bytes and numbers little-endian.
- The packing of the registration token into an interface name, and the choice of kernel layout tables for the KPM walk.
- Iovecs.Recvmsg: models the path for several descriptors, Iovecs.RecvmsgOne the other, which alone leaves replies of another first type untouched; `Iovecs.OneIsRewritten` compares them. The socket test and the getifaddrs guard before both are left out.
- Ifconf.FilterIfconfBuf: models fault-free copies only; a copy fault leaves the length as it was, and user-memory faults are left out.
