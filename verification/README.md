# Verified models of the repository's stateful core

Dafny models of the algorithms and protocols in this repository whose correctness does not
show in any single function, with proofs of what they promise. One module models one
component; the modules of one subject build on one another.

Protocols and state machines, where all interleavings count:

- `KeyPairLock`: several mock servers share one key file. Every file-system call is a step;
  processes interleave, fail and are killed between any two. They agree on one key, one that has
  a key returns it, and each error is shown to come from exactly the replies that call for it.
  Two things are asked of the environment, and each is shown to be needed: the read under the
  lock does not miss a valid key, and nobody deletes the lock file while its maker is at work.
- `WaylandClipboard`: the poll loop of the Wayland clipboard owner over eight transfer slots,
  with display events that fill slots in mid-iteration. Descriptor numbers may be reused, so
  transfers are told apart by the order in which they arrived. `ClipboardDelivery` says what
  every turn and iteration does for a reader, and that one who keeps reading gets it all.
- `TerminalStream`: subscriptions, interval timers, replacement, closing sockets, and replies
  delivered later and only if their subscription still stands. `StreamProgress` says what a
  subscription left alone is sent.
- `CreditLedger`: idempotent redemption of reset credits against offers that change.
- `RunsPaging`: reading a run list page by page with shrinking limits, against the host's own
  pagination, while new runs arrive. `RunsBoundaries` treats pruned cursors, failures and hosts
  that do not page.

Graphs and trees:

- `CommandSuggestion`, on `EditDistance`: families of destructive verbs as connected
  components, when a destructive command may be suggested, and a length filter that loses
  nothing. The distance itself is proved to be the length of the shortest edit script.
  `BestSuggestions` says what a user sees in terms of the commands.
- `EntryGuard`: the chunks a bundle entry reaches, and a guard that shares one memo.
- `AccessibilityTree` with `TabCompaction`: rendering a capped tree to numbered records,
  compacting browser tabs, and finding elements again by path. `RenderedNodes` says which nodes
  a rendering shows, `RenderedPlaces` why, how far it indents them and when nothing is cut,
  `OmittedTabs` what compacting takes away, `RenderedNumbers` when the numbers stay unique, and
  `RepeatedNumbers` gives two windows for which they do not.
- `FirstDescendant`: a search with an explicit stack, on trees; `GraphSearch`: on any graph.

Scanners, printers and arithmetic:

- `ShellWords`: splitting and rendering command lines. `ShellSpellings` describes all spellings
  of a command line, which are exactly what the splitter takes.
- `OptionKeys`, `CallSiteText`, `ObjectLiterals`, `SecondLiterals`, `CallSiteReasons`: reading
  option keys out of source text. The first is the reader; the others describe source text, so
  as to say what it reads and why it refuses.
- `CliArgs`, `RepeatedFlags`, on `CommandSpecs` and `CliFlags`: parsing argv, packing repeated
  flags and reading them back, and turning words into flags.
- `DueDate`: the date check, on the day arithmetic of ECMA-262.

Code that changes state is modelled as methods and classes with the program's own loops and
fields. Each is proved equal to a function of its inputs or its old state, and the properties
are lemmas about those functions. `Options`, `Numbers`, `Collations` and `Seqs` hold what the
rest uses.

Where the code does other than it should, or than its comments say, the model follows the code:

- `DueDate`: real dates of the years 0 to 99 are rejected as not real; `YearNinetyNineIsRefused`
  is one of them.
- `ObjectLiterals`: a comment in the code promises that anything but an identifier is kept
  verbatim; quoted keys are dropped, so that a literal holding one still counts as readable.
  `QuotedKeysAreHidden` says exactly when the keys read are all there are, and
  `OneQuotedKeyReadsAsNone` shows one that is not.
- `SecondLiterals`: keys the reader cannot see are meant to make a call unreadable; of two object
  literals the first key of the second is lost and the call still counts as readable.
  `SecondLiteralLosesItsFirstKey` says exactly when, and `KeyOfSecondLiteralIsLost` shows one.
- `TabCompaction`: elements rendered after a compaction are numbered by the length of the
  shortened list and can repeat a kept number. `ContinuationsStayOneToOne` says exactly when a
  compaction is harmless, `WalkStaysInStep` lifts this to whole renderings, and
  `NumberGivenTwice` and `SelectedTabLosesRecord` show windows that are rendered wrongly.
- `CreditLedger`: the reply "noCredit" and the error "already being redeemed" cannot occur.
- `WaylandClipboard`: the poll timeout narrows a 64-bit difference to 32 bits.
  `RemainingIsRight` says exactly when that is harmless, and `LongOverdueSleepsOn` shows a case
  where it is not.

## Model

| member | source | states |
|---|---|---|
| `KeyPairLock.Agreement` | mobile/scripts/mock-server-key-pair.ts:135-167 | In every interleaving of any number of processes, with failing calls and processes killed anywhere, all processes that return hold the same key, which is the one in the key file; at most one key is ever installed, and none when the file was valid at the start |
| `KeyPairLock.ValidKeyIsFinal` | mobile/scripts/mock-server-key-pair.ts:91-106 | From the moment the key file is valid it is never replaced, whatever happens afterwards |
| `KeyPairLock.MutualExclusion` | mobile/scripts/mock-server-key-pair.ts:53-89 | No two processes are ever between creating and unlinking the lock file together |
| `KeyPairLock.StepKeepsInvariant` | mobile/scripts/mock-server-key-pair.ts:53-167 | One file-system call, kill or permitted removal of the lock keeps: whoever is in the locked section holds the lock, whoever mints sees no valid key, every settled key is the key in the file, at most one key was installed |
| `KeyPairLock.RunKeepsInvariant` | mobile/scripts/mock-server-key-pair.ts:53-167 | The same over whole runs |
| `KeyPairLock.MisreadUnderLockReplacesKey` | mobile/scripts/mock-server-key-pair.ts:153-161 | Necessity of the first premise: for any two keys a run in which the one event not permitted is a misread under the lock, and which installs the new key over the valid one |
| `KeyPairLock.RemovingBusyLockInstallsTwoKeys` | mobile/scripts/mock-server-key-pair.ts:86-88 | Necessity of the second premise: deleting the lock file, as the busy error advises, while its maker still works installs two keys |
| `KeyPairLock.CallsAreBounded` | mobile/scripts/mock-server-key-pair.ts:53-167 | A process makes at most 114 file-system calls, whatever the others and the environment do |
| `KeyPairLock.AdvanceUsesACall` | mobile/scripts/mock-server-key-pair.ts:53-106 | Every reply brings a process strictly nearer its end, through both retry loops |
| `KeyPairLock.StaleLockBlocks` | mobile/scripts/mock-server-key-pair.ts:70-88 | Over a stale lock and an unusable key file no process ever returns a key or changes the file: all of them end with the busy error or fail to open the lock |
| `KeyPairLock.LockIsReleased` | mobile/scripts/mock-server-key-pair.ts:126-133 | If nobody is killed and unlinking works, an existing lock of a process always belongs to one still inside, after success and after failure |
| `KeyPairLock.ProcessRunsProgram` | mobile/scripts/mock-server-key-pair.ts:135-167 | In any interleaving a process stands where the sequential program stands after the same replies: the machine runs the program |
| `KeyPairLock.DecidedComesOut` | mobile/scripts/mock-server-key-pair.ts:126-167 | A process that has a key returns that key, and one that has failed throws its error: unless it is killed, an outcome once decided is kept through everything the others and the environment do, and three more calls of its own end with it |
| `KeyPairLock.UndisturbedCallMints` | mobile/scripts/mock-server-key-pair.ts:135-167 | An undisturbed process that finds no usable key and no lock file returns the key it mints after nine calls, with that key in the key file and the lock file gone; the other processes stand where they stood |
| `KeyPairLock.GoodCallSettles` | mobile/scripts/mock-server-key-pair.ts:135-166 | Reading a valid key settles a process on it at every place where it reads, and ends the call at once except under the lock; so does a rename that works |
| `KeyPairLock.BusyExactlyIfRefused` | mobile/scripts/mock-server-key-pair.ts:53-89 | The lock is reported busy exactly if it existed at 51 tries to create it and 53 reads, one first, one after each try and one before the last, found no key |
| `KeyPairLock.FirstOtherReplyDecides` | mobile/scripts/mock-server-key-pair.ts:57-88 | At whichever of the 51 tries it comes, a lock file created lets the process in, and an error other than that the file exists ends the call with the locking error |
| `KeyPairLock.MintsExactlyIfRenamed` | mobile/scripts/mock-server-key-pair.ts:91-124 | Minting ends with the minted key exactly if writing and setting the mode work and the rename does at one of five tries, all before it having failed transiently; otherwise with the persisting error |
| `KeyPairLock.SectionIsLeftInOrder` | mobile/scripts/mock-server-key-pair.ts:108-133 | Whatever becomes of writing and renaming, the temporary file is removed next; the lock is closed before it is unlinked, and only unlinking leaves the locked section |
| `KeyPairLock.LoadOrCreate` | mobile/scripts/mock-server-key-pair.ts:135-167 | The program with its loops and its own decisions on replies, stopped anywhere, stands where the control-flow function stands after the replies used so far; what that function ends with is said by DecidedComesOut, UndisturbedCallMints, BusyExactlyIfRefused, FirstOtherReplyDecides and MintsExactlyIfRenamed |
| `KeyPairLock.AcquireKeyLock` | mobile/scripts/mock-server-key-pair.ts:53-89 | Fifty attempts, a last read, a last attempt and a late read end with the lock, with a key or an error, or stopped outside the locked section |
| `KeyPairLock.PersistKeyPair` | mobile/scripts/mock-server-key-pair.ts:91-124 | Write, set the mode, rename up to five times, and remove the temporary file in every case before the lock is closed |
| `KeyPairLock.RenameKeyFile` | mobile/scripts/mock-server-key-pair.ts:91-106 | Up to five renames, tried again only on a transient error, end with the key in place, with an error, or stopped between two tries |
| `KeyPairLock.KeyDirectory.CreateLock` | mobile/scripts/mock-server-key-pair.ts:57-61 | Exclusive create: the lock changes hands only when it was free; otherwise the call answers that it exists |
| `KeyPairLock.KeyDirectory.Apply` | mobile/scripts/mock-server-key-pair.ts:53-133 | One event changes files and processes in place as the step function says |
| `KeyPairLock.KeyDirectory.Play` | mobile/scripts/mock-server-key-pair.ts:135-167 | A whole interleaving in place: at most one install, and the file never contradicts a returned key |
| `WaylandClipboard.EveryRunIsSafe` | native/wayland-clipboard/wayland-clipboard.c:215-265 | In every run each open descriptor sits in exactly one of eight slots, each descriptor received is open or was closed exactly once, each reader got a prefix of the text, and, unless the text is empty, the whole text exactly on completion |
| `WaylandClipboard.ArrivalsNotWrittenThisRound` | native/wayland-clipboard/wayland-clipboard.c:230-262 | A descriptor that arrives between poll and the write loop is not written in that iteration: it is kept untouched, refused or timed out |
| `WaylandClipboard.RoundKeepsValid` | native/wayland-clipboard/wayland-clipboard.c:215-265 | One iteration, with dispatches before and after poll, keeps the invariant on every way out |
| `WaylandClipboard.CheckKeepsValid` | native/wayland-clipboard/wayland-clipboard.c:245-262 | A slot's turn in the write loop keeps the invariant: expiry, broken peer, partial write, completion and write error |
| `WaylandClipboard.HandleKeepsValid` | native/wayland-clipboard/wayland-clipboard.c:127-144 | Display events keep the invariant, including a refused descriptor |
| `WaylandClipboard.AcceptKeepsValid` | native/wayland-clipboard/wayland-clipboard.c:132-144 | A descriptor put into the first free slot, or refused, keeps every part of the invariant |
| `WaylandClipboard.WriteKeepsValid` | native/wayland-clipboard/wayland-clipboard.c:253-261 | A write of any size and the close after it keep the invariant |
| `WaylandClipboard.CloseKeepsValid` | native/wayland-clipboard/wayland-clipboard.c:210-213 | Closing moves one transfer from open to closed and keeps the invariant |
| `WaylandClipboard.ChecksLeaveArrivalsUnwritten` | native/wayland-clipboard/wayland-clipboard.c:245-262 | The write loop over stale poll answers writes nothing to slots that were free at the poll |
| `WaylandClipboard.CheckSlotTouchesOne` | native/wayland-clipboard/wayland-clipboard.c:245-262 | A slot's turn touches its own descriptor only, adds at most one close, and without writability writes nothing |
| `WaylandClipboard.RemainingIsRight` | native/wayland-clipboard/wayland-clipboard.c:232-233 | The narrowing of the remaining time to 32 bits is harmless exactly while the low 32 bits of an overdue amount are at most 2^31 |
| `WaylandClipboard.LongOverdueSleepsOn` | native/wayland-clipboard/wayland-clipboard.c:232-233 | A transfer overdue by 2^31 + 1 ms would let poll sleep for 2^31 - 1 ms |
| `WaylandClipboard.PollWakesForEarliestDeadline` | native/wayland-clipboard/wayland-clipboard.c:227-235 | The poll timeout is infinite exactly when no slot is taken and otherwise ends at the earliest deadline |
| `WaylandClipboard.FirstFree` | native/wayland-clipboard/wayland-clipboard.c:134-135 | The slot found is the first free one |
| `WaylandClipboard.Process.SourceSend` | native/wayland-clipboard/wayland-clipboard.c:132-144 | The slot loop puts the descriptor in the first free slot or closes it |
| `WaylandClipboard.Process.Close` | native/wayland-clipboard/wayland-clipboard.c:210-213 | close_transfer in place |
| `WaylandClipboard.Process.ServeSlot` | native/wayland-clipboard/wayland-clipboard.c:246-261 | The loop body in place refines the slot step, whose outcome in every case UnwrittenTurn and WrittenTurn state, and keeps the invariant |
| `WaylandClipboard.Process.DispatchPending` | native/wayland-clipboard/wayland-clipboard.c:244 | Dispatching a batch of events in place keeps the invariant |
| `WaylandClipboard.Process.WriteLoop` | native/wayland-clipboard/wayland-clipboard.c:245-262 | The write loop in place refines the walk over all slots |
| `WaylandClipboard.Process.ComputeTimeout` | native/wayland-clipboard/wayland-clipboard.c:227-235 | The timeout loop computes the minimum over the taken slots |
| `WaylandClipboard.Process.Iterate` | native/wayland-clipboard/wayland-clipboard.c:217-262 | One iteration in place refines the round and keeps the invariant |
| `WaylandClipboard.Process.Run` | native/wayland-clipboard/wayland-clipboard.c:215-265 | The serve loop in place refines the run and keeps the invariant |
| `WaylandClipboard.ReadText` | native/wayland-clipboard/wayland-clipboard.c:197-208 | Reading in pieces of any size succeeds exactly on inputs of at most 16 MiB that are read to the end without an error, with the whole input |
| `ClipboardDelivery.ReaderGetsWholeText` | native/wayland-clipboard/wayland-clipboard.c:215-262 | A reader that is there, ready and in time at every iteration and takes at least a byte each time has the whole text, and is closed as complete, after as many iterations as bytes were left, whatever the other transfers and the display do |
| `ClipboardDelivery.RoundServes` | native/wayland-clipboard/wayland-clipboard.c:245-262 | An iteration that reaches its write loop serves every transfer under way by its own answer alone: timed out exactly from its deadline on, dropped if deserted before, untouched if not writable, written otherwise |
| `ClipboardDelivery.WrittenTurn` | native/wayland-clipboard/wayland-clipboard.c:252-261 | A write in time hands the reader what it took of at most 65536 bytes of the rest: complete exactly if that is the whole text, given up exactly on an error that does not pass, and else going on with two more seconds if anything was taken |
| `ClipboardDelivery.UnwrittenTurn` | native/wayland-clipboard/wayland-clipboard.c:247-252 | From its deadline on a transfer is timed out, before that it is dropped exactly if its peer is gone, and left alone while it is not writable |
| `ClipboardDelivery.AcceptTakesFirstFree` | native/wayland-clipboard/wayland-clipboard.c:132-144 | A descriptor that can be made non-blocking takes the first of the eight slots that is free, at the start of the text and with two seconds; any other is closed unread |
| `ClipboardDelivery.RoundExits` | native/wayland-clipboard/wayland-clipboard.c:216-245 | Serving ends well exactly if a dispatch before the poll fails or brings the end, badly exactly if anything after that fails; an end brought by the dispatch behind the poll lets that iteration finish |
| `EditDistance.Levenshtein` | src/shared/edit-distance.ts:1-23 | The two rolling rows compute the distance table's last entry |
| `EditDistance.NoScriptIsShorter` | src/shared/edit-distance.ts:12-22 | No sequence of single-character insertions, deletions and replacements is shorter than the distance |
| `EditDistance.BestScript` | src/shared/edit-distance.ts:12-22 | And one of exactly that length exists |
| `EditDistance.EditMovesDistance` | src/shared/edit-distance.ts:12-22 | One edit anywhere in a text moves its distance to any other text by at most one |
| `EditDistance.LengthsBoundDistance` | src/cli/command-suggestion.ts:33-34 | The difference of lengths never exceeds the distance, which is zero exactly for equal texts |
| `CommandSuggestion.DestructiveVerbFamilies` | src/cli/command-suggestion.ts:15-28 | The loop builds exactly the connected components: a verb is in the map exactly if a destructive command has it, two verbs share a family exactly if a chain of destructive commands links them, and the families are a partition |
| `CommandSuggestion.MergeKeepsBuilt` | src/cli/command-suggestion.ts:21-25 | Merging the families of one command's verbs keeps partition, soundness and completeness for the commands seen |
| `CommandSuggestion.MergeKeepsPartition` | src/cli/command-suggestion.ts:22-25 | Merging keeps the map a partition |
| `CommandSuggestion.ChainStaysInFamily` | src/cli/command-suggestion.ts:22-25 | A chain of shared verbs never leaves a family |
| `CommandSuggestion.FamiliesIgnoreOrder` | src/cli/command-suggestion.ts:15-28 | The families do not depend on the order or repetition of the commands |
| `CommandSuggestion.IntendsDestruction` | src/cli/command-suggestion.ts:30-40 | The test with its length filter succeeds exactly if some verb of the family is within one edit |
| `CommandSuggestion.RankingIsBest` | src/cli/command-suggestion.ts:47-53 | The ranking keeps the three best near entries in order; nothing left out should have stood before one kept |
| `CommandSuggestion.SortSorts` | src/cli/command-suggestion.ts:50 | The stable sort orders and permutes |
| `CommandSuggestion.PrefilterLosesNothing` | src/cli/command-suggestion.ts:83-85 | Scoring only labels of about the right length ranks the same entries as scoring all |
| `CommandSuggestion.SuggestCommands` | src/cli/command-suggestion.ts:56-89 | Suggests what ranking all offered spellings would, in the order of declaration and each where first met: those of commands that are not hidden and, if destructive, have a linked verb within one edit of the last word |
| `CommandSuggestion.SuggestionsAreOffered` | src/cli/command-suggestion.ts:61-88 | Every suggestion is within three edits and spells a command that may be offered: never a destructive one without destructive intent |
| `CommandSuggestion.SuggestFlags` | src/cli/command-suggestion.ts:108-120 | Suggests what ranking all valid flags would, with the one renamed flag first |
| `BestSuggestions.SuggestionsAreBest` | src/cli/command-suggestion.ts:47-89 | What is suggested for a command path are the best of all candidates: at most three names, none twice, within three edits and not the input, best first, and a candidate so near is left out only for three that may stand before it. The candidates are exactly the names of the typed depth of commands that are not hidden and, if destructive, have a verb linked to theirs within one edit |
| `BestSuggestions.LabelsAreCandidates` | src/cli/command-suggestion.ts:61-82 | The names scored are exactly those candidates: first words when one word was typed, else whole spellings of that many words |
| `BestSuggestions.RankedAreBest` | src/cli/command-suggestion.ts:47-53 | Ranking any names by distance gives the best three of those within three edits |
| `BestSuggestions.WithoutTakesOut` | src/cli/command-suggestion.ts:117-119 | Putting the renamed flag first takes it out of its place and leaves the others in order |
| `DueDate.AcceptsExactlyRealDates` | src/cli/linear-request-builders.ts:85-100 | The check accepts a flag exactly if it spells a real Gregorian date from the year 100 on, and otherwise names the right error |
| `DueDate.DateRoundTrip` | src/cli/linear-request-builders.ts:91-95 | Every real date comes back from its day number (ECMA-262 section 21.4.1) |
| `DueDate.DayRoundTrip` | src/cli/linear-request-builders.ts:91-95 | Every day number comes back from its date |
| `DueDate.EarlyYearsMove` | src/cli/linear-request-builders.ts:91-93 | Years 0 to 99 always come back as 1899 or later, so they are never accepted (ECMA-262 section 21.4.3.4 adds 1900) |
| `DueDate.YearNinetyNineIsRefused` | src/cli/linear-request-builders.ts:85-100 | For example 0099-12-31, a real date, is refused as no real calendar date |
| `DueDate.RefusesWithoutText` | src/cli/flags.ts:5-12 | A flag that is absent is missing, one passed bare needs a value |
| `DueDate.YearLength` | src/cli/linear-request-builders.ts:91 | Consecutive years start as many days apart as the first has, by the leap-year rule |
| `DueDate.YearIsUnique` | src/cli/linear-request-builders.ts:93 | The year found for a day is the only one that contains it |
| `DueDate.MonthIsUnique` | src/cli/linear-request-builders.ts:94 | The month found for a day of the year is the only one that contains it |
| `ShellWords.RenderRoundTrip` | src/cli/orchestration-mutation-recovery.ts:106-167 | Splitting a rendered POSIX command gives back exactly its words, empty words, white space, backslashes and both quotes included; the empty command alone gives nothing |
| `ShellWords.RenderIsInjective` | src/cli/orchestration-mutation-recovery.ts:159-167 | Two different commands never render alike |
| `ShellWords.ParseRenderParse` | src/cli/orchestration-mutation-recovery.ts:106-167 | Rendering what was split splits the same again |
| `ShellWords.ResolvedKeepsArguments` | src/cli/orchestration-mutation-recovery.ts:169-180 | Putting the executable in replaces the first word of an orca command and changes nothing else |
| `ShellWords.ScanQuoted` | src/shared/shell-argument-quoting.ts:20-22 | A word in single quotes with every apostrophe spelled in double quotes is read back as that word |
| `ShellWords.ParseCommandLine` | src/cli/orchestration-mutation-recovery.ts:112-157 | The index loop refines the character scan, which by SplitsExactlySpellings takes exactly the spellings of a command line |
| `ShellSpellings.SplitsExactlySpellings` | src/cli/orchestration-mutation-recovery.ts:112-157 | A text splits into given words if and only if it spells them: bare characters, characters behind a backslash outside quotes, stretches in apostrophes, and double quotes in which a quote or backslash stands behind a backslash and any other backslash for itself, in any mixture within a word and a line |
| `ShellSpellings.GivesUpExactlyWithoutWords` | src/cli/orchestration-mutation-recovery.ts:150-157 | It gives up exactly on texts that spell no word |
| `ShellSpellings.ScanPieces` | src/cli/orchestration-mutation-recovery.ts:112-148 | Every spelling is scanned as the words it spells |
| `ShellSpellings.ReadPieces` | src/cli/orchestration-mutation-recovery.ts:118-148 | Every text whose quotes are closed is a spelling |
| `ShellWords.QuotesExactlyIfNeeded` | src/cli/orchestration-mutation-recovery.ts:207-212 | A word is rendered as it is exactly if it is not empty and has only letters, digits and the signs _./:@%+=,- ; any other begins and ends with an apostrophe |
| `EntryGuard.CollectsReachableOnce` | config/build-plugins/plain-node-entry-guard.ts:92-115 | The worklist returns each chunk of the bundle that imports and dynamic imports reach from the entry, once, and nothing else, on any import graph |
| `EntryGuard.CollectReachableChunks` | config/build-plugins/plain-node-entry-guard.ts:92-115 | The worklist loop ends and refines its specification |
| `EntryGuard.CollectIsClosed` | config/build-plugins/plain-node-entry-guard.ts:105-112 | What was seen and what is collected is closed under imports |
| `EntryGuard.AssertNoElectronRequire` | config/build-plugins/plain-node-entry-guard.ts:117-139 | With any memo of clean code the scan finds the same first offender as without, and keeps the memo clean |
| `EntryGuard.GuardAll` | config/build-plugins/plain-node-entry-guard.ts:305-330 | One memo for all entries gives the same verdict as scanning every entry afresh |
| `EntryGuard.GuardIsExact` | config/build-plugins/plain-node-entry-guard.ts:305-330 | The guard passes exactly if no guarded entry reaches an offending chunk; otherwise it names the first such entry and a chunk it reaches |
| `EntryGuard.FirstOffenderIsFirst` | config/build-plugins/plain-node-entry-guard.ts:124-136 | The offender reported is the first of the list |
| `ObjectLiterals.ReadsPrintedCall` | config/scripts/call-site-option-keys.ts:170-188 | For any call with one object literal, its values balanced text with strings and comments: the identifier keys in order, or unreadable exactly if some entry is a spread, a computed key or the like |
| `ObjectLiterals.NamesAre` | config/scripts/call-site-option-keys.ts:93-167 | Those keys are the names of the identifier entries, one for each and in order |
| `ObjectLiterals.QuotedKeysAreHidden` | config/scripts/call-site-option-keys.ts:110-128 | A quoted key is dropped and the literal still counts as readable: the keys read are all the keys exactly if none is quoted |
| `ObjectLiterals.OneQuotedKeyReadsAsNone` | config/scripts/call-site-option-keys.ts:110-128 | For example an argument {'a':1} reads as a literal without keys |
| `SecondLiterals.SecondLiteralLosesItsFirstKey` | config/scripts/call-site-option-keys.ts:110-188 | A call with two object literals of plain, shorthand and quoted entries is unreadable exactly if the first does not end in a value; otherwise it counts as readable, with the names of the first literal and those of the second but for its first entry, whose name is lost |
| `SecondLiterals.KeyOfSecondLiteralIsLost` | config/scripts/call-site-option-keys.ts:110-188 | For example arguments {a:1},{b:2} read as one literal with the key a |
| `SecondLiterals.BodyEndsInValue` | config/scripts/call-site-option-keys.ts:115-131 | Behind a last value the reader is still in that value when the literal closes |
| `ObjectLiterals.BodyRun` | config/scripts/call-site-option-keys.ts:93-167 | Reading the entries one by one adds the names of identifier entries, nothing for quoted ones, and an unreadable key for odd ones |
| `ObjectLiterals.ValueOver` | config/scripts/call-site-option-keys.ts:111-139 | Inside a value nothing is recorded before a comma at depth 0 |
| `CallSiteText.BalancedCutsExactly` | config/scripts/call-site-option-keys.ts:37-90 | Whatever good text the parentheses hold and whatever follows, exactly that text is cut out |
| `CallSiteText.PrintedMarks` | config/scripts/call-site-option-keys.ts:43-87 | Good text (words, comments, strings with escapes, templates without holes, nested brackets) is scanned as the brackets it has and leaves the scanner in code |
| `OptionKeys.BalancedArguments` | config/scripts/call-site-option-keys.ts:37-90 | The index loop, with its skipped characters, refines the scan over marks |
| `OptionKeys.ObjectLiteralKeys` | config/scripts/call-site-option-keys.ts:93-167 | The loop over depth, state and token refines the reader |
| `OptionKeys.ReadCallOptionKeys` | config/scripts/call-site-option-keys.ts:170-188 | The reader composed of the two loops, with its four reasons |
| `OptionKeys.FirstUnreadable` | config/scripts/call-site-option-keys.ts:183-186 | There is an unreadable key exactly if some key is not an identifier, and the one reported is such a key |
| `CallSiteReasons.OpenCallNeverCloses` | config/scripts/call-site-option-keys.ts:37-90 | A call whose parenthesis is still open at the end of the text, in a string, in a comment or in code, at any depth, or at a template hole with anything behind it, never closes |
| `CallSiteReasons.ReadsOtherArguments` | config/scripts/call-site-option-keys.ts:170-181 | A closed argument list with nothing but white space has no options; otherwise it is no object literal exactly if, white space around it aside, it does not begin and end with a brace |
| `CallSiteReasons.FirstUnreadableIsFirst` | config/scripts/call-site-option-keys.ts:183-186 | The unreadable key reported is the first |
| `CliArgs.ParseRoundTrip` | src/cli/args.ts:61-118 | Any command path and any flag map, printed as --name=value or --name, parse back to the same path and map in order, whichever flags are boolean or repeatable and wherever a command is recognized |
| `CliArgs.ParseUndoesPrint` | src/cli/args.ts:70-117 | Words and flags interleaved in any way, values joined by = or spaced: parsing gives the words in order and the flags set in order |
| `CliArgs.EveryArgvIsPrinted` | src/cli/args.ts:70-103 | Every argv is the print of such items, so the previous row covers all command lines |
| `CliArgs.SpacedMeansAssigned` | src/cli/args.ts:79-102 | Wherever both spellings are printable, --name value and --name=value parse alike |
| `CliArgs.SpacedAfterWordMeansAssigned` | src/cli/args.ts:79-102 | Behind a word they always do, for flags that are not boolean and values that do not start with two dashes |
| `CliArgs.RespaceStaysPrintable` | src/cli/args.ts:90-102 | Joining spaced values behind a word keeps a command line readable: before the word positions stay, behind it they do not matter |
| `CliArgs.SetAllRebuilds` | src/cli/args.ts:109-116 | Setting the entries of a map one by one rebuilds it in order |
| `CliArgs.LongestIsLongest` | src/cli/args.ts:42-59 | The prefix found is a spelling that starts the path, as long as any and the first of its length; none is found only if none starts the path |
| `CliArgs.SpecForPathPrefix` | src/cli/args.ts:42-59 | The two loops find that spelling |
| `CliArgs.ParseArgs` | src/cli/args.ts:61-118 | The loops over argv and over the entries refine the parse function |
| `CliArgs.LastOneCounts` | src/cli/args.ts:27-39 | A flag that does not pile up holds what was given for it last, text or none, and one that was not given is absent |
| `CliArgs.PilesUpExactlyIf` | src/cli/args.ts:105-108 | A flag piles up exactly if it is label or skill or the command with the longest spelling that starts the path declares it |
| `CliArgs.SpellingsAre` | src/cli/args.ts:46-47 | The spellings looked through are exactly the paths and aliases of the commands |
| `CliFlags.Set` | src/cli/args.ts:27-39 | Setting a flag gives it the value and leaves every other flag as it was |
| `CliFlags.SetKeepsPlaces` | src/cli/args.ts:109-116 | A name already set keeps its place in the map, a new one goes last |
| `RepeatedFlags.RepeatedRoundTrip` | src/cli/flags.ts:75-83 | Whatever else is on the command line, a repeatable flag reads as the non-empty values given since it was last bare, in order; it is an error exactly if it was bare last |
| `RepeatedFlags.ValuesComeBack` | src/cli/flags.ts:75-83 | The texts given for a repeatable flag after it was last passed bare, wherever they stand among the other flags, are read back one by one, in order, none lost |
| `RepeatedFlags.SplitUndoesPack` | src/cli/args.ts:33-36 | Splitting at the separator undoes the packing for values without it |
| `RepeatedFlags.ReadPacked` | src/cli/flags.ts:75-83 | The reader gives the non-empty packed values |
| `RepeatedFlags.SetAllHolds` | src/cli/args.ts:27-39 | After any entries the map holds the packed history of every repeatable flag |
| `RepeatedFlags.PositionalRoundTrip` | src/cli/args.ts:225-238 | Words given positionally to a repeatable flag, variadic ones included, read back as the non-empty ones in order |
| `RepeatedFlags.ValuesAreWords` | src/cli/args.ts:225-238 | The words that go to a flag are exactly the extra words at the places that stand for it, in order; a variadic command's last name takes all further words |
| `RepeatedFlags.NormalizeCommandPositionals` | src/cli/args.ts:206-242 | The first command that takes the path, by its first spelling that does, decides; if none takes it the input is returned unchanged |
| `RepeatedFlags.FirstTakerIsUnique` | src/cli/args.ts:207-224 | There is at most one such command and spelling |
| `RepeatedFlags.NormalizeKeepsPassed` | src/cli/args.ts:225-237 | Every flag passed as such keeps its value |
| `RepeatedFlags.NormalizeSetsFlags` | src/cli/args.ts:225-239 | Normalizing puts the command's own path, sets each flag some extra word stands for to the last such word unless it was passed or piles up, leaves all others alone, and reports exactly the flags given both ways |
| `RepeatedFlags.TakesExactlyIf` | src/cli/args.ts:214-224 | A spelling takes a path exactly if the path is the spelling and then no more words than the command has names for, or any number if it is variadic |
| `RepeatedFlags.ParseNormalizeRead` | src/cli/args.ts:61-242 | From argv through parsing and normalization to the reader: the non-empty values passed since the flag was last bare, in order; if it was not passed, the non-empty words standing for it; an error exactly if it was bare last |
| `AccessibilityTree.EveryRecordIsFound` | native/computer-use-linux/runtime.py:787-804 | On an unchanged tree every record of a rendering finds the node it was made from, by identity, through elided levels and after compaction, and there are at most 1200 records |
| `AccessibilityTree.WalkFinds` | native/computer-use-linux/runtime.py:421-463 | The path of every record leads back to the node the record was made from, its identity included |
| `AccessibilityTree.RecordsAreDistinct` | native/computer-use-linux/runtime.py:421-463 | No two records share a path |
| `AccessibilityTree.TidyOnlyDrops` | native/computer-use-linux/runtime.py:462-463 | Compaction takes records out and adds none |
| `AccessibilityTree.FindByPathLoop` | native/computer-use-linux/runtime.py:764-770 | The loop follows the path child by child and stops at a missing one |
| `AccessibilityTree.LookupIsExact` | native/computer-use-linux/runtime.py:764-804 | On any tree, changed or not: a saved record finds a node exactly if the record's path leads to it and its role, name, automation id and actions are the record's; otherwise nothing is found |
| `AccessibilityTree.Renderer.WalkNode` | native/computer-use-linux/runtime.py:421-463 | The renderer's recursion over shared lists refines the walk |
| `AccessibilityTree.Renderer.WalkBelow` | native/computer-use-linux/runtime.py:460-461 | The loop over children refines the walk below a node |
| `RenderedNodes.LinesStayShallow` | native/computer-use-linux/runtime.py:421-463 | With compaction or without, no line is deeper than 64 |
| `RenderedNodes.UntruncatedIsComplete` | native/computer-use-linux/runtime.py:422-463 | A rendering not marked truncated, with compaction or without, holds in order everything there is to show but for the paths its compactions took out |
| `RenderedNodes.UntruncatedRendering` | native/computer-use-linux/runtime.py:465-466 | The same of a whole rendering |
| `RenderedNodes.TakenInside` | native/computer-use-linux/runtime.py:462-463 | Compactions below a node take out nothing but what was there before or lies below it |
| `RenderedNodes.NothingTakenUncompacted` | native/computer-use-linux/runtime.py:462-463 | Without compaction nothing is taken out |
| `RenderedNodes.UncompactedIsComplete` | native/computer-use-linux/runtime.py:421-463 | Without compaction an untruncated rendering holds everything, numbered by position |
| `RenderedPlaces.ShownExactlyIfVisible` | native/computer-use-linux/runtime.py:416-461 | A node is shown exactly if it is not elided and the rendering goes below every node above it, with the path of that way |
| `RenderedPlaces.ElidedExactlyIfSilent` | native/computer-use-linux/runtime.py:416-433 | A node is elided exactly if it is a plain container without name, id, value, telling action or summed-up text and with at most one readable child |
| `RenderedPlaces.LinesAreDrawn` | native/computer-use-linux/runtime.py:429-463 | With compaction or without, every element line is that of a node of the window, indented by the number of shown nodes above it |
| `RenderedPlaces.SmallIsNotCut` | native/computer-use-linux/runtime.py:421-426 | With at most 1200 nodes and 65 levels nothing is cut, with compaction or without |
| `RenderedPlaces.SmallWindowIsWhole` | native/computer-use-linux/runtime.py:421-466 | Such a window, rendered without compaction, has exactly the records of what is visible, numbered in order |
| `RenderedNumbers.ContinuationsStayOneToOne` | native/computer-use-linux/runtime.py:427-500 | Over a compaction of records numbered by position: every way of going on within the node cap keeps records and lines one to one exactly if every number above an omitted one is omitted too |
| `RenderedNumbers.GapRepeatsANumber` | native/computer-use-linux/runtime.py:427-500 | Otherwise every way of going on repeats a number once as many elements have been shown again as were omitted |
| `RenderedNumbers.TidyStaysInStep` | native/computer-use-linux/runtime.py:469-500 | A compaction leaves numbers that are positions exactly if every number above an omitted one is omitted too |
| `RenderedNumbers.WalkStaysInStep` | native/computer-use-linux/runtime.py:421-463 | If every compaction of a rendering is such, the whole rendering ends with numbers that are positions and records and lines one to one |
| `RenderedNumbers.UncompactedIsClean` | native/computer-use-linux/runtime.py:462-463 | A rendering without compaction always is |
| `RenderedNumbers.UncompactedIsLineByLine` | native/computer-use-linux/runtime.py:421-463 | Without compaction the k-th line is that of the k-th record, with the number k |
| `RepeatedNumbers.NumberGivenTwice` | native/computer-use-linux/runtime.py:427-500 | A window for which the walk gives the number 13 twice: a bar of twelve tabs, the last selected, and then twelve labels |
| `RepeatedNumbers.SelectedTabLosesRecord` | native/computer-use-linux/runtime.py:486-499 | A window with two such bars, whose rendering keeps the line of the first selected tab and drops its record |
| `TabCompaction.CompactKeepsOneToOne` | native/computer-use-linux/runtime.py:469-500 | Starting from unique numbers, compaction drops whole elements: records and element lines stay the same elements in the same order, no number twice |
| `TabCompaction.SharedNumberLosesRecord` | native/computer-use-linux/runtime.py:486-499 | An element that shares its number with an omitted tab loses its record and keeps its line |
| `TabCompaction.NextNumbersAreFree` | native/computer-use-linux/runtime.py:427 | When records numbered by position are taken out, the numbers left lie below the next one to be given out exactly if every number above one taken out is taken out too |
| `TabCompaction.CutMovesLeft` | native/computer-use-linux/runtime.py:489-496 | Between two tab lines nothing is decided, so the loop from the right decides line by line |
| `TabCompaction.RemoveInactive` | native/computer-use-linux/runtime.py:486-496 | Deleting from the right while counting leaves the other lines in order and collects exactly the omitted numbers |
| `TabCompaction.Rendering.CompactTabs` | native/computer-use-linux/runtime.py:469-500 | The in-place edit of both lists, summary line included, is the compaction |
| `TabCompaction.TabLines` | native/computer-use-linux/runtime.py:470-474 | The direct tab lines, all of them, ascending |
| `OmittedTabs.CompactionIsExact` | native/computer-use-linux/runtime.py:469-500 | A compaction leaves the lines before the first tab, one line with the number of tabs omitted, then the lines from there on without the inactive tabs, in order, and the records in order without those of such a tab's number; otherwise nothing changes |
| `OmittedTabs.CompactsExactlyIf` | native/computer-use-linux/runtime.py:470-483 | It happens exactly if there are ten direct tabs or more, some active and some not |
| `OmittedTabs.ActiveExactlyIf` | native/computer-use-linux/runtime.py:513-520 | A tab is active exactly if its line says selected or the last record of its number is selected or has the value 1 |
| `FirstDescendant.TreeSearchIsPreorder` | native/computer-use-linux/runtime.py:611-631 | On a finite tree of distinct nodes the search visits the recursive preorder of the levels allowed, cut off after the number of nodes allowed |
| `FirstDescendant.VisitsOnce` | native/computer-use-linux/runtime.py:614-621 | On any graph no node is visited twice |
| `FirstDescendant.FirstMatchIsFirst` | native/computer-use-linux/runtime.py:622-623 | The match is the first in the order visited |
| `FirstDescendant.Search` | native/computer-use-linux/runtime.py:611-631 | The explicit-stack loop ends on any graph, cyclic ones included, and finds the first match among the nodes visited |
| `GraphSearch.SearchFromRoot` | native/computer-use-linux/runtime.py:611-631 | On any graph: the root is visited first, each other visit is a child of an earlier one a level lower and within the depth allowed, and unless the nodes allowed are used up every child of every node above the lowest level is visited |
| `RunsPaging.ReadsEveryRunOnce` | src/cli/automation-runs-paging.ts:54-75 | Against a host that pages a run list by keyset cursors, every run that existed at the first page comes exactly once and in order, however many replies are too large and however many new runs arrive between calls |
| `RunsPaging.ReadOnReadsAll` | src/cli/automation-runs-paging.ts:62-74 | From any point of a session on, all remaining runs are read |
| `RunsPaging.ShrinkAt` | src/cli/automation-runs-paging.ts:29-44 | A shrinking page behind a cursor is a page of the list at a limit no larger than asked for |
| `RunsPaging.ShrinkFirst` | src/cli/automation-runs-paging.ts:29-44 | The first page is a page of what had arrived when its last call was made |
| `RunsPaging.AnswerAt` | src/shared/automation-run-cursor.ts:32-67 | Behind the cursor of a run, whatever has arrived before it, the host answers with the page after that run |
| `RunsPaging.ReadShrinkingPage` | src/cli/automation-runs-paging.ts:29-44 | The halving loop finds the first reply that is not too large, or the reply at limit 1 |
| `RunsPaging.Shrink` | src/cli/automation-runs-paging.ts:29-44 | The limit never grows and stays at least 1, the reply is the answer to the last call at the last limit, and it is too large only at limit 1 |
| `RunsPaging.CallsAreHalvings` | src/cli/automation-runs-paging.ts:29-44 | One page costs at most one call more than the halvings of its limit |
| `RunsPaging.ReadAllAutomationRuns` | src/cli/automation-runs-paging.ts:54-75 | The loop ends whenever the cursors a host hands out are finitely many; a whole session makes at most as many calls as pages plus the halvings of the first limit |
| `RunsPaging.HalvingsOfAPage` | src/cli/automation-runs-paging.ts:6 | Those halvings are four |
| `RunsPaging.FindBoundary` | src/shared/automation-run-cursor.ts:42-44 | The boundary is the first run the cursor names |
| `RunsBoundaries.PrunedBoundaryLosesNothing` | src/shared/automation-run-cursor.ts:46-51 | A cursor whose run has been pruned resumes at exactly the runs behind its key in a list ordered newest first, equally old ones included |
| `RunsBoundaries.ShrinksOnlyWhileTooLarge` | src/cli/automation-runs-paging.ts:29-44 | A page is asked for again exactly while its reply was too large and its limit above one, each time at half the limit; any other reply is final |
| `RunsBoundaries.FailsOnlyWithTheHost` | src/cli/automation-runs-paging.ts:54-75 | A session fails only with a reply of the host that failed, or was too large at limit one |
| `RunsBoundaries.OlderHostIsReadAtOnce` | src/cli/automation-runs-paging.ts:53-75 | A host that ignores paging and gives no cursor is read in one call |
| `RunsBoundaries.RepeatedCursorEnds` | src/cli/automation-runs-paging.ts:69-72 | A cursor that comes back ends the session with what has been read |
| `RunsBoundaries.PagesAreBounded` | src/shared/automation-run-cursor.ts:54-68 | A page has as many runs as asked for, at least one and at most 100, as far as there are any; there is a next cursor exactly if something is left, and it names the last run of the page |
| `CreditLedger.CreditsAreConserved` | mobile/scripts/mock-server-account-state.ts:53-63 | Over every run after a reset, resets recorded plus credits left are two, offers and operations correspond one to one, and the replies "noCredit" and "already being redeemed" never occur |
| `CreditLedger.StepKeepsInvariant` | mobile/scripts/mock-server-account-state.ts:139-193 | Selecting an account or consuming a credit keeps the ledger's invariant |
| `CreditLedger.ConsumeCases` | mobile/scripts/mock-server-account-state.ts:139-193 | A call either changes nothing or redeems the offer on the table; it never finds the offer taken by another key |
| `CreditLedger.ReplayIsIdempotent` | mobile/scripts/mock-server-account-state.ts:157-166 | A key replayed with the same scope after any further calls gives its recorded answer and changes nothing; with another scope it is refused |
| `CreditLedger.RedeemsExactlyTheCurrentOffer` | mobile/scripts/mock-server-account-state.ts:168-192 | A fresh key redeems exactly if the scope supplied is the one on offer; otherwise nothing changes |
| `CreditLedger.OfferHasNoOwner` | mobile/scripts/mock-server-account-state.ts:177-182 | An offer still on the table has never been redeemed, nor has its account |
| `CreditLedger.SelectingChangesTheOffer` | mobile/scripts/mock-server-account-state.ts:78-90 | Selecting a known account makes it the active one and any offer on the table that account's; none selects none; an unknown one is refused; nothing else changes |
| `CreditLedger.OfferWhileCreditLeft` | mobile/scripts/mock-server-account-state.ts:130-137 | An offer is on the table exactly while the active account has its credit and a safe time stamp |
| `CreditLedger.RedeemingSpendsTheCredit` | mobile/scripts/mock-server-account-state.ts:168-192 | Redeeming takes the active account's credit, sets its use to nothing, moves its time stamp on, takes the offer off the table and leaves the other account alone |
| `CreditLedger.KeysAreUuids` | mobile/scripts/mock-server-account-state.ts:145-150 | A key is well formed exactly if it is five groups of hexadecimal digits with a version from 1 to 8 and a variant |
| `CreditLedger.BadCallsAreRefused` | mobile/scripts/mock-server-account-state.ts:145-156 | A malformed key or a missing scope is refused and changes nothing |
| `CreditLedger.Ledger.ResetAll` | mobile/scripts/mock-server-account-state.ts:53-63 | The reset in place establishes the invariant |
| `CreditLedger.Ledger.SelectAccount` | mobile/scripts/mock-server-account-state.ts:78-90 | Selection in place refines its step, which SelectingChangesTheOffer states: a known account becomes the active one, an unknown one changes nothing |
| `CreditLedger.Ledger.ConsumeCredit` | mobile/scripts/mock-server-account-state.ts:139-193 | Redemption in place refines the step and keeps the invariant |
| `TerminalStream.StreamsAreOrderly` | mobile/scripts/mock-server-terminal-stream.ts:68-108 | In every run a socket and terminal have at most one running interval; a subscriber gets scrollback and then chunks in order, none twice or left out before the last one it gets, and all that was produced once nothing is pending |
| `TerminalStream.NothingAfterTheEnd` | mobile/scripts/mock-server-terminal-stream.ts:34-36 | Once a subscription is replaced, cancelled or its socket closed, nothing is ever delivered for it again, however late the reply |
| `TerminalStream.ReplacedSubscriptionsEnd` | mobile/scripts/mock-server-terminal-stream.ts:13-32 | Subscribing again, unsubscribing and closing the socket each end the subscription, and the first two stop its interval at once |
| `TerminalStream.StepKeepsInvariant` | mobile/scripts/mock-server-terminal-stream.ts:68-121 | Subscribing, unsubscribing, ticks, closing sockets and deliveries keep the tables consistent and every stream orderly |
| `TerminalStream.StepStaysEnded` | mobile/scripts/mock-server-terminal-stream.ts:34-43 | No event revives an ended subscription |
| `TerminalStream.RespondAdds` | mobile/scripts/mock-server-rpc-handlers.ts:111-123 | Responding, at once or delayed, adds the message to its stream only, and only while that stream is current if sent |
| `StreamProgress.SubscriberGetsEverything` | mobile/scripts/mock-server-terminal-stream.ts:68-108 | A new subscription on an open socket, left alone for five ticks or more and until what waits is delivered, has been sent the scrollback and the five chunks, each once and in order |
| `StreamProgress.LeftAloneGoesOn` | mobile/scripts/mock-server-terminal-stream.ts:91-106 | A subscription that is not replaced, cancelled or closed stands, whatever happens to others, and has produced one chunk per tick until there are no more |
| `StreamProgress.TickProduces` | mobile/scripts/mock-server-terminal-stream.ts:91-106 | A tick of a standing stream with chunks left produces exactly the next chunk, keeps its interval and touches no other stream |
| `StreamProgress.TickStops` | mobile/scripts/mock-server-terminal-stream.ts:92-101 | A tick with nothing left or nobody to send to stops the interval and changes nothing else |
| `StreamProgress.DeliveriesEmpty` | mobile/scripts/mock-server-rpc-handlers.ts:111-123 | As many deliveries as replies wait leave none waiting |
| `TerminalStream.Server.BeginTerminalStream` | mobile/scripts/mock-server-terminal-stream.ts:22-32 | The in-place begin clears what was there and registers a new stream |
| `TerminalStream.Server.HandleSubscribe` | mobile/scripts/mock-server-terminal-stream.ts:68-108 | Subscribing in place refines its step |
| `TerminalStream.Server.OnInterval` | mobile/scripts/mock-server-terminal-stream.ts:91-106 | The interval callback in place refines the tick, which by TickProduces and TickStops sends the next chunk or stops |
| `TerminalStream.Server.Play` | mobile/scripts/mock-server-terminal-stream.ts:47-121 | Any interleaving played in place refines the run and keeps the invariant |

## Left out

Members whose contracts say less than the program does, or ask for more:

- RepeatedFlags.NormalizeCommandPositionals: asks that a variadic command names at least one positional argument; the program would set a flag called undefined for one that does not, which no declared command is.
- RepeatedFlags.ParseNormalizeRead: asks that the flag is repeatable both for the command that takes the path and for the command whose spelling parsing finds at its front; parsing and normalization look the command up in different ways.
- RepeatedFlags.SplitUndoesPack: asks for values without the separator character; a value that holds a NUL is split, and argv cannot carry one.
- CommandSuggestion.RankingIsBest: asks that the locale's comparison is a total preorder; which one it is stays open.
- CommandSuggestion.SuggestCommands: answers with labels only; the surrounding error data (next steps, valid flags) is text built from them.
- CliArgs.ParseArgs: takes the position of a recognized command and the set of boolean flags as parameters, so that its results hold for every value of them; how findCliCommandIndex finds the position is not part of this model.
- CliArgs.ParseRoundTrip: the flag names hold no '=', and the command words do not start with two dashes; without these the text printed is another command line.
- CliArgs.SpacedAfterWordMeansAssigned: takes the recognized command at the same position in both command lines, which it is when the word before the spaced flag names it.
- ShellWords.RenderRoundTrip: the POSIX branch only; quoting for cmd and PowerShell is not part of this model, nor is expansion of $ and backticks inside double quotes, which the splitter does not claim.
- ObjectLiterals.ReadsPrintedCall: regular-expression literals and commas between type arguments are outside the texts described; the scanner does not know them. Template literals have no holes: one with a hole makes the argument list unreadable.
- AccessibilityTree.EveryRecordIsFound: the text summary of a subtree, the noisy actions and how a line reads are parameters of the rendering; the tree is unchanged between rendering and lookup. A node's identity is a number of its own, which the program keeps for the geometry of a record.
- AccessibilityTree.Renderer.WalkNode: takes a finite tree. Elided levels do not raise the depth, so that an endless chain of elided nodes, which a finite tree has none of, would not be stopped by the depth cap.
- RenderedNumbers.WalkStaysInStep: the numbering of whole renderings is settled for those whose compactions all leave no gap; one that leaves a gap does harm only if enough elements follow, which ContinuationsStayOneToOne makes exact for what follows a single compaction.
- FirstDescendant.TreeSearchIsPreorder: speaks of trees; of graphs with cycles VisitsOnce, the termination of Search and GraphSearch.SearchFromRoot speak.
- FirstDescendant.VisitsOnce: takes a node's identity as stable. The program uses the address of its wrapper object, and an address can be used again once a wrapper has been freed.
- RunsPaging.ReadsEveryRunOnce: runs are only added, never pruned, during a session, and each arrives in front of those there are; a new run of the same creation time as an existing one may sort behind it, which is not covered. A reply of at most one run always fits; without that the read ends with the error at limit 1.
- RunsBoundaries.PrunedBoundaryLosesNothing: asks that the locale's comparison is a total preorder and turns its sign when turned round; whole sessions with pruning are not covered, only where each page resumes.
- ClipboardDelivery.ReaderGetsWholeText: each iteration must take at least a byte from the reader; one in which the reader is not ready leaves the transfer as it was, until its deadline (RoundServes).
- RenderedPlaces.SmallWindowIsWhole: without compaction; with it nothing is cut either (SmallIsNotCut), and what compacting takes away is said by UntruncatedIsComplete and CompactionIsExact.
- SecondLiterals.SecondLiteralLosesItsFirstKey: two literals with white space, comments and commas between them, without spreads, computed keys and the like; the text is described as for ReadsPrintedCall.
- CallSiteReasons.OpenCallNeverCloses: the text before the end is described as for ReadsPrintedCall, so regular-expression literals are outside it.
- CreditLedger.CreditsAreConserved: time stamps are unbounded integers; an offer whose stamp is no safe integer is withheld, as in the program.
- TerminalStream.StreamsAreOrderly: replies of one request method all have the same delay, so they are delivered in the order produced.
- KeyPairLock.Agreement: a call without a key file name, which only mints a key, is not part of the machine.

What the models do not cover:

- Key bytes, base64 and the checks on them: whether contents are a usable key is one predicate, and the reasons for an unusable key file are one.
- Clocks, delays and sleeping: time is an input; the pauses between attempts are not modelled.
- Kernel and compositor: handing over only unused descriptors, leaving free slots unanswered in poll, and writing no more than was offered are taken as their laws.
- The text of cursors: cursors are values; the encoding as createdAt:id, and decoding of malformed ones, are not modelled. The filter by automation and the envelope around a page are passed through.
- Characters: texts are sequences of characters, while the program counts UTF-16 code units.
- Account snapshots, other providers' accounts, and terminal requests that only echo.
- The daemon checks of the build guard (mirrored externals, relocation, smoke start), and entry names that are no inputs.
- Screens, styles, formatters, help text, command tables, configuration, and real input and output.
