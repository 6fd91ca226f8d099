# The stateful core of the AM module

This project models the six hand-written, stateful parts of a replacement of the AM system module of the
Nintendo 3DS, and proves what they keep over every run.

- **CIA installer** (`Am9`, `CiaFormat`, `CiaInvariant`, `CiaSteps`, `CiaContentSteps`, `CiaNames`, `CiaInstaller`,
  `CiaTheorems`, `CiaWalk`, `CiaPieces`, `CiaRuns`): a state machine that takes a CIA file in pieces of any size and
  installs it through AM9. AM9 is a record of calls with arbitrary outcomes; reading the record back gives the
  transactions it leaves open and the data it was given. `CiaNames` is about the title and the certificate chain that
  AM9 is told of. `CiaWalk` says what the lengths of the pieces alone decide about
  the TMD; `CiaPieces` and `CiaRuns` are about whole installs, from a new installer to the last piece.
- **LightLock, RecursiveLock, LightEvent** (modules of the same names, `Threads`, and `ComposedLock` for the second over
  the first): step relations over any number of threads, with one step per exclusive load, exclusive store, plain access
  and arbiter call.
- **Heap allocator** (`HeapModel`, `Allocator`, `HeapTheorems`): headers and links in one array of words, and the map
  of blocks it stands for.
- **SHA-256** (`Sha256Spec`, `Sha256`, `Sha256Examples`): FIPS 180-4 as functions, the streaming implementation against
  it, and the constants and digests that tell the functions from similar ones.
- **Demo play counts** (`DemoQueue`, `DemoDatabase`): a ring in a file, read through a buffer of 128 title ids, and the
  bounded queue it stands for.
- **TWL export sections** (`Cbc`, `TwlSection`): chunked decryption, hashing and installation of one section, on top of
  the SHA-256 context.

`Bytes` holds bytes, integers of fixed width and the two memory loops.

Where the code and what one expects of it part, the code is modelled and the exact condition is proved:

- TMD bytes held back for a 16-byte block are lost when the next call cannot complete the block (pipe.c:362-370 falls
  through to line 390), and completed from beyond the TMD when the block is its last. Of a file with bytes behind its TMD,
  the TMD is installed if and only if no piece begins inside a TMD block without completing it inside the TMD:
  `CiaPieces.TmdInstalledExactly`. Byte by byte every TMD of more than 0x211 bytes is lost: `CiaRuns.InstallByteWise`.
  Pieces of whole blocks are safe: `CiaPieces.BlockPiecesSafe`.
- An offset that passes the TMD's end inside a block never meets it again (pipe.c:318): all later bytes go to AM9 as TMD,
  every call succeeds and no content is begun. This is decided by the lengths of the pieces, and is the only way not to
  reach the contents of a file with bytes behind its TMD: `CiaPieces.ContentsReachedExactly`.
- A piece that ends where the TMD ends, without completing the block held back, skips the reset at line 390: the bytes
  stay held back after the TMD is finished (`CiaInstaller.Installer.FinishTmd`) and are sent to AM9 as the start of the
  first content. How many they are follows from the lengths of the pieces: `CiaPieces.ContentsReachedExactly`. For every
  run, what a content is given is the bytes held back as it began and then its own, and the offset is the content's start
  plus the bytes delivered and held back if and only if there are none: `CiaTheorems.OffsetAccounts`. Runs that leave
  some: `CiaRuns.LeftoverRun`, with an instance in `CiaPieces.SmallFileLeaks`.
- The final state is reached only by a call that has bytes left behind the last content (pipe.c:75-80 returns as soon as
  there are none left), so the install of a file that ends with its last content stays in the content state, with
  everything installed: `CiaPieces.FinalExactly`, `CiaPieces.ContentsInstalled`.
- `free` does not always merge neighbouring free blocks: `HeapTheorems.CoalescingExact`, `HeapTheorems.FragmentedHeap`.
- SHA-256 keeps the length in 32 bits: `Sha256.PaddingExact`.
- A section that AM9 has begun is left begun, neither finished nor cancelled, if and only if its metadata cannot be read
  or is not in the file: `TwlSection.ProcessSection`; every truncated file is one: `TwlSection.ProcessTruncated`.
- The metadata of a section is looked for at its start, not behind it, for the 15 sizes above 0xfffffff0:
  `TwlSection.MetaBehindSection`. `alignMeta` is not what the offset moves by for empty sections and for sizes
  above 0xffffffd0: `TwlSection.AdvanceExact`.
- A title with a play limit of 0 is still granted its first launch, since the count is only looked at for titles in the
  database; limits are respected if and only if they are at least 1: `DemoQueue.LimitExact`.
- The nesting counter of the recursive lock wraps: an unlock gives the lock up at every multiple of 2^32 of the depth it
  leaves (`RecursiveLock.ReleasedAtMultiples`), which nesting of up to 2^32 never reaches
  (`RecursiveLock.NestingToLimit`) and 2^32 + 1 calls do (`RecursiveLock.EarlyRelease`, `RecursiveLock.BothInside`).
- The loop that is to fill a new database file with zeros (demodb.c:114-115) steps by bytes where it should step by
  buffers, so that it writes the first 128 title ids and nothing else: `DemoDatabase.Database.constructor`.

## Model

| member | source | states |
|---|---|---|
| `CiaInstaller.Installer.Write` | `source/am/pipe.c:7-80` | one call takes the next piece of the file, in any size: a success reports exactly the piece unless the final state ends the call early; a failure invalidates the install for good and has a reason: a call refused by AM9, no memory, or a title id in the file that this import may not install; a later call touches neither the install nor AM9; whether the TMD is still intact and which TMD bytes will go into the first content follow from where the piece begins, its length and the bytes held back; a success in the final state means that all enabled contents are installed; the title begun and the chain handed over are the file's; the loop ends by (bytes left, states left, indices left, content to begin) |
| `CiaInstaller.Installer.Step` | `source/am/pipe.c:82-650` | one turn of the switch keeps the invariant of the file, the AM9 log and the fields, and comes closer to the end of the call |
| `CiaInstaller.Installer.CopyPart` | `source/am/pipe.c:34-48` | BASIC_COPY writes the file's next bytes behind those already copied and never past the region |
| `CiaInstaller.Installer.SkipPadding` | `source/am/pipe.c:50-71` | stops exactly when the chunk ends inside the padding |
| `CiaInstaller.Installer.Collect` | `source/am/pipe.c:106-115` | a region is the file's bytes as far as it has been collected, however it was cut |
| `CiaInstaller.Installer.StepTicket` | `source/am/pipe.c:153-236` | ticket begun once, its rest written in order; at its end the only call is the finish, and the step fails exactly if that is refused for another reason than being outdated |
| `CiaInstaller.Installer.FinishTicket` | `source/am/pipe.c:199-217` | an outdated ticket is accepted just like a finished one; any other refusal ends the install with nothing changed |
| `CiaInstaller.Installer.ImportTicketHeader` | `source/am/pipe.c:156-197` | refuses exactly the title ids this import may not install; then begin and header write; on any error the flags still name what is open |
| `CiaInstaller.Installer.ImportTmdHeader` | `source/am/pipe.c:255-316` | the same check for the TMD; then title and TMD begun under the id in the TMD and the header written, or an error with exactly the open installs flagged |
| `CiaInstaller.Installer.RefusedBytes` | `include/am/util.h:21-39` | which title ids are refused, on their bytes: for a system import all but system titles, for an import to the temporary database all but children |
| `CiaInstaller.Installer.StepTmd` | `source/am/pipe.c:253-412` | the TMD state loses no byte exactly when the block held back can be completed by this call inside the TMD |
| `CiaInstaller.Installer.AppendTmdBlock` | `source/am/pipe.c:362-370` | the append branch: the bytes held back grow by the whole piece, the TMD is not intact, and the fall-through either drops them (line 390) or, at the TMD's end, leaves them held back |
| `CiaInstaller.Installer.FinishTmd` | `source/am/pipe.c:318-335` | the TMD is finished at its end offset; what is held back then, and only that, is what the first content will begin with |
| `CiaInstaller.Installer.CommitTitle` | `source/am/pipe.c:417-445` | finish, commit and begin of the title, only when a first content or a whole batch is done |
| `CiaInstaller.Installer.SetUpBatch` | `source/am/pipe.c:457-482` | announces the next enabled indices, 64 unless fewer are left, and leaves cindex alone |
| `CiaInstaller.Installer.FindContent` | `source/am/pipe.c:489-531` | begins the next enabled index, or turns to the final state when none is left |
| `CiaInstaller.Installer.BeginContent` | `source/am/pipe.c:492-518` | a content begins at the next 64-byte boundary and ends after the size AM9 reports, in u32 |
| `CiaInstaller.Installer.WriteContent` | `source/am/pipe.c:533-636` | in every run, bytes delivered and held back stay the content's first bytes behind what was held back as it began, with less than one block held back; it is finished at its end |
| `CiaInstaller.Installer.FinishContent` | `source/am/pipe.c:614-636` | a finished content counts for the title and, unless it is the first, for its batch; bytes still held back are left to the next content |
| `CiaInstaller.Installer.StepFinalize` | `source/am/pipe.c:639-647` | moves to the end of the meta region, or as far as the piece goes; ends the call exactly when it gets there, at once for a file without one |
| `CiaTheorems.ChunkingIndependent` | `source/am/pipe.c:533-637` | two installs of the same file cut differently have, after the same number of bytes, the same contents installed, but for contents without data that one of them may already have got to, and the same bytes of the open one |
| `CiaRuns.InstallTwice` | `source/am/pipe.c:7-663` | two whole installs of one file through two AM9s, cut in two ways that leave no TMD byte held back: the same contents installed, but for contents without data at the end, and the same bytes of a content still open |
| `CiaTheorems.OffsetAccounts` | `source/am/pipe.c:533-611` | in every run, bytes delivered + bytes held back = bytes held back as the content began + the file's bytes from its start to the offset; offset = start + delivered + held back if and only if nothing was held back as it began, which for the first content means no TMD byte |
| `CiaInstaller.Installer.FinalMeansInstalled` | `source/am/pipe.c:413-637` | at the end AM9 has installed the enabled contents in order, each with its region of the file displaced by the bytes held back between them; these are none, and everything was written in positive multiples of 16, if no TMD byte was held back at its end and the sizes are whole blocks |
| `CiaTheorems.TmdExact` | `source/am/pipe.c:337-410` | the TMD installed is the file's TMD if and only if every call that started in mid-block could complete the block inside the TMD |
| `CiaRuns.InstallPieces` | `source/am/pipe.c:7-663` | for every way of cutting a file into pieces for a new installer: whatever happens, AM9 is asked for the file's title and given the file's certificate chain and no other; a call fails for a reason only; and if no call fails, the contents are reached, the ticket and the TMD are the file's, and as many TMD bytes go into the first content, exactly as the header and the lengths of the pieces say; and if these are none, the contents are whole blocks and the file goes as far as its last content, AM9 has installed every enabled content with exactly its bytes, but for contents without data at the end |
| `CiaPieces.ContentsReachedExactly` | `source/am/pipe.c:318-396` | the contents are reached if and only if there is a byte behind the TMD and the offset has not passed its end inside a block; if it has, the install stays in the TMD with nothing begun; the number of TMD bytes that go into the first content is that of the walk over the pieces |
| `CiaPieces.TmdInstalledExactly` | `source/am/pipe.c:318-410` | of a file with a byte behind its TMD, the TMD is finished and is the file's if and only if no piece begins inside a TMD block that it does not complete inside the TMD |
| `CiaPieces.ContentsInstalled` | `source/am/pipe.c:413-650` | a file handed over as far as its last content: every enabled content with exactly its bytes, in positive multiples of 16, but for contents without data at the end of the list; all of them in the final state |
| `CiaPieces.FinalExactly` | `source/am/pipe.c:75-80` | the install of a file with contents is in the final state if and only if the file has a byte behind the last of them |
| `CiaRuns.SafePiecesInstall` | `source/am/pipe.c:413-650` | safe pieces install the file's TMD and every content with data |
| `CiaPieces.SafeWalk` | `source/am/pipe.c:337-396` | safe pieces reach the TMD's end with nothing held back |
| `CiaWalk.TurnKept` | `source/am/pipe.c:337-410` | one turn of the TMD state, whatever it writes, completes, appends or drops, leaves the outcome of the whole piece as its length and the bytes held back say |
| `CiaRuns.InstallByteWise` | `source/am/pipe.c:337-410` | byte by byte the TMD of a file with a byte behind it is installed if and only if it has at most 0x211 bytes |
| `CiaPieces.ByteWiseSafe` | `source/am/pipe.c:340-396` | of one-byte pieces, which files are cut safely |
| `CiaPieces.BlockPiecesSafe` | `source/am/pipe.c:376-396` | pieces of whole 16-byte blocks, but for the last one, are safe for every file |
| `CiaRuns.LeftoverRun` | `source/am/pipe.c:362-375` | three pieces, of which the second ends the TMD without completing the block held back: the TMD is not the file's, and exactly the bytes of that block are at the start of the first content, so that the offset does not account for its bytes |
| `CiaPieces.SmallFileLeaks` | `source/am/pipe.c:362-375` | such pieces exist: an instance with a TMD of 0x212 bytes |
| `CiaRuns.FirstMisplaced` | `source/am/pipe.c:534-555` | whenever TMD bytes were held back as the first content began, its start, its bytes and the bytes held back do not add up to the offset |
| `CiaRuns.TitlesFinal` | `source/am/pipe.c:258-436` | at any time, failed or not: every begin and every commit carries the id whose eight big-endian bytes are in the file's TMD, and the first begin alone overwrites, if any is to; as long as no call has failed, a title has been begun if and only if the TMD header has been imported, and then it is downloadable content if and only if the id starts with 00 04 00 8C |
| `CiaRuns.ChainFinal` | `source/am/pipe.c:94-132` | the certificate chain handed over is the file's, at most once; as long as no call has failed, it has been handed over if and only if there is one and its state has been left |
| `CiaRuns.FailureExplained` | `source/am/pipe.c:652-663` | a failed install ends with a call that AM9 refused, for lack of memory, or with a title id in the file that is refused |
| `CiaNames.TitleIdBytes` | `include/am/util.h:46-49` | the id that the code reads has exactly the bytes in the file |
| `CiaRuns.TicketFinal` | `source/am/pipe.c:153-236` | from the TMD header state on, as long as no call has failed: the ticket AM9 has finished is the file's ticket |
| `CiaTheorems.BegunAscending` | `source/am/pipe.c:489-519` | the indices begun are enabled, ascending, each once, and none is skipped |
| `CiaRuns.CommitsFinal` | `source/am/pipe.c:417-518` | at any time in the content states, as long as no call has failed: downloadable content with more than one content has been committed after the first and then after whole batches, in the order announced; a batch has 64 contents unless nothing is left behind it; everything begun is ascending and enabled, and nothing else is ever committed |
| `CiaRuns.TransactionsLegal` | `source/am/pipe.c:153-663` | at any time, failed or not: every AM9 call so far was made in turn - a write, a finish or a question about a context inside its install, the begins and the commit outside of those they exclude - none after a failed one, only the last can have failed and only if the installer is invalidated, and the importing flags name exactly the installs begun and not finished |
| `CiaTheorems.NothingAfterFailure` | `source/am/pipe.c:652-663` | in a legal log every call is allowed by the transactions then open, and only the last one can have failed |
| `CiaTheorems.FlagIsOpen` | `source/am/pipe.c:153-663` | what the record says is open is what has been begun successfully and not finished since |
| `CiaTheorems.InstalledIsWritten` | `source/am/pipe.c:494-620` | the data of an installed content is what was written between its begin and its finish |
| `CiaFormat.EnabledBelowExact` | `source/am/pipe.c:32` | the enabled indices below a bound are exactly the set bits of the bitmap, ascending, each once |
| `CiaFormat.OneBitEnabled` | `source/am/pipe.c:32` | bit x counts from the most significant bit of byte x / 8: of the bitmap with only that bit set, x alone is enabled |
| `CiaFormat.Layout` | `include/am/format.h:11-20` | every part of the file begins at the first multiple of 64 behind the one before and is as long as the bytes of its little-endian header field say |
| `CiaFormat.IdBytes` | `include/am/util.h:21-49` | the three kinds of title ids on the bytes of the id |
| `Bytes.Le32Bytes` | `include/am/format.h:11-20` | a packed u32 has its bytes in ascending order |
| `Bytes.Be64Bytes` | `source/am/pipe.c:258` | a swapped u64 has its bytes in descending order |
| `CiaSteps.TmdBlockLost` | `source/am/pipe.c:362-370` | after the append branch the TMD given to AM9 can no longer be the file's |
| `CiaContentSteps.ContentHeldBack` | `source/am/pipe.c:557-566` | holding bytes back keeps, in every run, delivered + held back equal to the lead and the region so far |
| `CiaContentSteps.ContentBlockCompleted` | `source/am/pipe.c:538-555` | completing the block held back keeps it too, whether its first bytes are the content's or the TMD's |
| `CiaContentSteps.BatchAnnounced` | `source/am/pipe.c:461-477` | the indices collected are the first ones of those still to come |
| `CiaContentSteps.CommitDone` | `source/am/pipe.c:425-444` | a commit closes the record of one batch and leaves nothing begun |
| `Sha256.ConsumeChunk` | `source/sha256.c:31-109` | the compression function of section 6.2.2 of FIPS 180-4, for every hash value and block |
| `Sha256.ScheduleSlot` | `source/sha256.c:71-82` | slot (j + 16 - back) mod 16 of the circular schedule holds the schedule word back places earlier |
| `Sha256.Extended` | `source/sha256.c:76-81` | the in-place update computes word 16 i + j of the 64-word schedule |
| `Sha256.MainRound` | `source/sha256.c:83-103` | one round on the working variables |
| `Sha256.Context.Write` | `source/sha256.c:135-166` | after any sequence of writes the context stands for the concatenation of what was written |
| `Sha256.Context.Fill` | `source/sha256.c:147-165` | the copying path: a full chunk is consumed at once, so there is always room for a byte |
| `Sha256.BlockHolds` | `source/sha256.c:141-146` | the path without copying folds a block just as the copying one |
| `Sha256.PiecesAlike` | `source/sha256.c:135-166` | hash value and chunk prefix depend on the message only, not on the writes it came in; the hash value is the fold over all whole blocks |
| `Sha256.Context.PadOut` | `source/sha256.c:168-203` | one-block and two-block padding complete the message with a one bit, the minimal zero run and the length |
| `Sha256.Context.EncodeLength` | `source/sha256.c:195-201` | the shift by 3, then by 5 and 8, spells eight times the length in 64 bits |
| `Sha256.Context.Close` | `source/sha256.c:168-214` | the digest of the message padded with its length in u32, most significant byte first; for a message below 2^32 bytes that of FIPS 180-4 |
| `Sha256.PaddingExact` | `source/sha256.c:137-201` | the padding is that of section 5.1.1 if and only if the message is shorter than 2^32 bytes |
| `Sha256.CalcSha256` | `source/sha256.c:216-222` | the message digest of FIPS 180-4 |
| `Sha256Spec.ZeroBytes` | `source/sha256.c:185-194` | the zero run is the least that completes a block |
| `Sha256Examples.ConstantsAreCubeRoots` | `source/sha256.c:74-88` | the 64 constants are the first 32 bits of the fractional parts of the cube roots of the first 64 primes |
| `Sha256Examples.InitialIsSquareRoots` | `source/sha256.c:121-132` | the initial hash value is that of the square roots of the first eight |
| `Sha256Examples.AbcDigest` | `source/sha256.c:216-222` | the published digest of the one-block example "abc" |
| `Sha256Examples.AlphabetDigest` | `source/sha256.c:216-222` | the published digest of the example of two blocks |
| `Sha256Examples.TableIsComputation` | `source/sha256.c:56-103` | a table of working variables and schedule words, eight rounds to a row, is the computation of a block if each row leads to the next |
| `Allocator.Heap.constructor` | `source/allocator.c:67-75` | one free block over the whole memory |
| `Allocator.Heap.Search` | `source/allocator.c:90-110` | finds the lowest free block that fits, or that there is none; the index only grows |
| `Allocator.Heap.Malloc` | `source/allocator.c:78-147` | NULL exactly for size 0 or when no free block has that many bytes, with nothing changed; otherwise the lowest that has, exactly, with one spare word or split; no word of a live block changes |
| `Allocator.Heap.Free` | `source/allocator.c:150-197` | which blocks merge in each branch; no word of another live block changes |
| `HeapModel.Took` | `source/allocator.c:111-139` | taking a whole block keeps headers, links and tiling |
| `HeapModel.SplitOff` | `source/allocator.c:120-144` | splitting a block keeps them |
| `HeapModel.FreedBeforeFirst` | `source/allocator.c:156-160` | freeing in front of the first free block, merging with it, keeps them |
| `HeapModel.FreedInGap` | `source/allocator.c:180-187` | freeing between two free blocks, merging all three, keeps them |
| `HeapModel.FreedAfterPrev` | `source/allocator.c:180-189` | merging with the free block before keeps them |
| `HeapModel.FreedAlone` | `source/allocator.c:161-195` | linking a block in on its own keeps them |
| `HeapTheorems.ListVisitsFreeBlocks` | `source/allocator.c:55-64` | the list from avail visits exactly the free blocks in ascending order and ends at the end of memory |
| `HeapTheorems.PayloadWritesHarmless` | `source/allocator.c:146` | whatever owners write into their payload keeps the heap intact |
| `HeapTheorems.WordsConserved` | `source/allocator.c:67-197` | words of live blocks and words of free blocks are disjoint and add up to the memory |
| `HeapTheorems.AllocatedWords` | `source/allocator.c:111-146` | malloc takes exactly the words of the new block out of the free ones |
| `HeapTheorems.FreedWords` | `source/allocator.c:150-197` | free adds exactly the words of the block to the free ones, merged or not |
| `HeapTheorems.MallocFreeRestores` | `source/allocator.c:78-197` | malloc then free of the result gives back the same free words and live blocks |
| `HeapTheorems.FreeingAllRestoresAll` | `source/allocator.c:150-197` | freeing every live block, in any order, makes every word free |
| `HeapTheorems.CoalescingExact` | `source/allocator.c:176-195` | two free blocks stay side by side exactly when the freed one does not meet the free block before it but meets the one after |
| `HeapTheorems.FragmentedHeap` | `source/allocator.c:191-195` | an instance: of three blocks allocated in eight words and freed, all eight words are free, and no six of them in one block |
| `LightLock.MutualExclusion` | `source/3ds/synchronization.c:27-87` | in every reachable state: at most one holder, the word negative exactly when there is one, its value 1 plus the number of waiting threads |
| `LightLock.NeverAllAsleep` | `source/3ds/synchronization.c:47-87` | no lost wake-up: a free lock with waiters always has an awake waiter or a thread about to signal |
| `LightLock.SomeWaiterCanAcquire` | `source/3ds/synchronization.c:47-87` | from every such state some waiter can take the lock within three steps |
| `LightLock.RefinesPlainLock` | `source/3ds/synchronization.c:27-87` | the holder changes only by a successful strex that takes the free lock or by the holder giving it up |
| `LightLock.SignalsIffWaiting` | `source/3ds/synchronization.c:84-86` | unlock calls the arbiter exactly when some thread waits |
| `LightLock.WordFits` | `source/3ds/synchronization.c:32-69` | the count stays in an s32 for fewer than 2^31 - 1 threads |
| `LightLock.StoreEffect` | `source/3ds/synchronization.c:32-82` | what each successful strex does to word, holder and waiters |
| `LightLock.SleepsIffHeld` | `source/3ds/synchronization.c:51-87` | a waiting thread is put to sleep exactly if the lock is held; the one that unlock wakes looks at the word again |
| `LightLock.LockAndUnlock` | `source/3ds/synchronization.c:27-87` | in every reachable state a free lock can be got, and a held one given up, within three steps of the calling thread |
| `RecursiveLock.OwnershipExact` | `source/3ds/synchronization.c:96-114` | in every run without an early release: a set tag names the holder; nested threads hold the inner lock; between calls the counter is the depth modulo 2^32 |
| `RecursiveLock.OnlyOwnerSkipsLock` | `source/3ds/synchronization.c:96-105` | the unsynchronised read of the tag passes exactly the holder |
| `RecursiveLock.ReleasedAtOutermost` | `source/3ds/synchronization.c:107-114` | the inner lock is given up exactly by the unlock that answers the outermost lock |
| `RecursiveLock.ReleasedAtMultiples` | `source/3ds/synchronization.c:107-114` | an unlock gives the inner lock up if and only if the depth it leaves is a multiple of 2^32, which is early if and only if that depth is not 0 |
| `RecursiveLock.NestingToLimit` | `source/3ds/synchronization.c:96-114` | while nobody locks at a depth of 2^32 or more, nothing is released early |
| `RecursiveLock.EarlyRelease` | `source/3ds/synchronization.c:96-114` | a run of 2^32 + 1 calls of lock and one unlock leaves the inner lock free with a thread 2^32 deep inside |
| `RecursiveLock.BothInside` | `source/3ds/synchronization.c:96-114` | after which a second thread gets in beside the first |
| `ComposedLock.RunProjects` | `source/3ds/synchronization.c:27-114` | every run of RecursiveLock over LightLock, all steps interleaved, is a run of RecursiveLock over a plain lock and a run of LightLock |
| `ComposedLock.ComposedExact` | `source/3ds/synchronization.c:27-114` | in the two together: a thread inside holds the LightLock, so at most one is inside, and waiters are never all asleep on a free lock |
| `ComposedLock.MoveIsAtomic` | `source/3ds/synchronization.c:101-112` | the strex that takes or gives up the LightLock is the one step in which the recursive lock gets or loses its inner lock |
| `LightEvent.OneshotExact` | `source/3ds/synchronization.c:116-167` | from a cleared or signaled one-shot event: signals that took effect = waits that returned + the one still set, and no lost wake-up |
| `LightEvent.ReturnConsumes` | `source/3ds/synchronization.c:116-129` | a wait returns exactly when it consumes a signal |
| `LightEvent.SomeWaitCanReturn` | `source/3ds/synchronization.c:131-150` | a signaled event with a sleeping thread lets some wait return within eight steps |
| `LightEvent.SignalSets` | `source/3ds/synchronization.c:152-166` | a signal that finds a one-shot event cleared goes on to set it; its store signals the event, and its arbiter call wakes a sleeper if there is one |
| `LightEvent.SignalTakesEffect` | `source/3ds/synchronization.c:152-166` | in every run such a signal is over only after a store that has signaled the event and then the arbiter call |
| `LightEvent.SignalReturnsWait` | `source/3ds/synchronization.c:131-166` | from every reachable cleared one-shot event with a sleeper and a call of signal, that sleeper's wait can return within ten steps on that signal |
| `LightEvent.SleepsIffCleared` | `source/3ds/synchronization.c:131-150` | the arbiter puts a waiting thread to sleep exactly if the event is cleared |
| `LightEvent.StickyExact` | `source/3ds/synchronization.c:131-174` | from a cleared or signaled sticky event: a sticky wait returns only after the signal, signallers exclude each other, and sleepers left are about to be woken |
| `LightEvent.StickySets` | `source/3ds/synchronization.c:167-174` | the same for a signal that finds a sticky event cleared; its arbiter call wakes every sleeper, and each returns |
| `LightEvent.StickySignalTakesEffect` | `source/3ds/synchronization.c:167-174` | in every run such a signal is over only with the event signaled and nobody asleep |
| `LightEvent.StickySignalWakesAll` | `source/3ds/synchronization.c:131-174` | from every reachable cleared sticky event with a call of signal, the event can be signaled and every sleeper have returned within six steps |
| `LightEvent.StickyWaitReturns` | `source/3ds/synchronization.c:131-150` | a wait on a signaled sticky event returns by at most three steps of its own |
| `DemoDatabase.Database.constructor` | `source/am/demodb.c:106-117` | an empty queue; the fill loop makes exactly the first 128 title ids zero, every other slot keeps what the new file held |
| `DemoDatabase.Database.FindIndex` | `source/am/demodb.c:5-40` | the batched scan finds the slot of a title or that there is none |
| `DemoDatabase.Database.GetLaunchInfos` | `source/am/demodb.c:153-187` | for every title asked for, presence bit and play count of the slot that holds the id without its console type, as in the queue; nothing for a title that is not there; the database is unchanged |
| `DemoDatabase.Database.HasDemoLaunchRight` | `source/am/demodb.c:189-243` | on the slots: granted if and only if the ticket can be read and has no limit, or no slot with the title has reached it; a granted launch counts up its slot or enters the title in the next one, a refused one changes nothing; and the same on the queue |
| `DemoDatabase.Database.EnterTitle` | `source/am/demodb.c:219-229` | a new title goes over the oldest one of a full ring; header in file and memory agree |
| `DemoDatabase.Database.CountLaunch` | `source/am/demodb.c:232-237` | the play count, a u8, goes up by one |
| `DemoDatabase.Database.InitializeHeader` | `source/am/demodb.c:139-144` | an empty queue |
| `DemoDatabase.ScanIsLookup` | `source/am/demodb.c:168-182` | what the scan reports is a plain lookup in the queue |
| `DemoDatabase.RightOnSlots` | `source/am/demodb.c:202-211` | the rule on the queue is the comparison of the slot's play count with the limit |
| `DemoDatabase.RingInserted` | `source/am/demodb.c:221-228` | writing at the next index is insertion into the bounded queue |
| `DemoQueue.RunBounded` | `source/am/demodb.c:189-243` | over every run the queue has at most 4096 entries with distinct masked titles |
| `DemoQueue.LaunchedPlays` | `source/am/demodb.c:217-237` | a launch changes the count of its title only, and evicts the oldest title only when a new one enters a full queue |
| `DemoQueue.PlaysAreGrants` | `source/am/demodb.c:212-237` | the play count is the number of launches granted since the entry was made, modulo 256 |
| `DemoQueue.LimitRespected` | `source/am/demodb.c:202-211` | a limited title is granted at most its limit, or one launch, while its entry lasts |
| `DemoQueue.LimitExact` | `source/am/demodb.c:202-211` | from the empty database every run grants at most the limit if and only if the limit is at least 1; a single check with limit 0 is granted |
| `DemoQueue.UnlimitedGranted` | `source/am/demodb.c:202-214` | in every run, a title without a limit is granted every launch |
| `DemoQueue.GrantedExactly` | `source/am/demodb.c:202-237` | as long as its entry lasts, a title with a limit is granted as many of its checks as the limit leaves |
| `DemoQueue.GrantedFromEmpty` | `source/am/demodb.c:189-243` | from the empty database, without reset or eviction: of the checks of a title with limit L, min(number of checks, max(L, 1)) are granted |
| `DemoQueue.FirstInFirstOut` | `source/am/demodb.c:217-228` | k insertions drop the oldest length + k - 4096 entries and keep the others in order |
| `TwlSection.ProcessSection` | `source/am/twlexport.c:234-305` | success, for every u32 size: exactly the first size bytes of the CBC plaintext are written, each write at the offset where the one before ended; all of the plaintext has the expected hash - SHA-256 of it up to 0xfffffff0, with the length bytes of its length in u32 beyond; directly behind the writes AM9 has accepted the MAC in the metadata over that hash; the offset moves behind the metadata, for every working buffer of at least 16 bytes; a refused MAC rejects the section, and nothing is finished without an accepted one; failure: only a beginning of the plaintext, and only because a read, a decryption or a call failed, the hash is another, or the section cannot be written; what was begun stays begun if and only if the metadata is not in the file or the file system fails to read it |
| `TwlSection.ProcessTruncated` | `source/am/twlexport.c:22-26` | a file that ends before the metadata does: a section that AM9 begins is left begun |
| `TwlSection.MetaBehindSection` | `source/am/twlexport.c:248` | the metadata is looked for behind the section if and only if the size is at most 0xfffffff0, and at its start otherwise |
| `TwlSection.Stream` | `source/am/twlexport.c:248-275` | the chunked loop keeps hashed = written = plaintext up to the offset |
| `TwlSection.ProcessChunk` | `source/am/twlexport.c:259-266` | read, decrypt in place with the chained IV, write |
| `TwlSection.TailComplete` | `source/am/twlexport.c:277-292` | of the ragged tail a whole block is hashed and the rest of the size written |
| `TwlSection.Check` | `source/am/twlexport.c:294-301` | MAC, hash and finish, in this order, each only if the one before succeeded |
| `TwlSection.Settled` | `source/am/twlexport.c:163-230` | the state of the transaction after every way out, read off the calls |
| `TwlSection.AdvanceExact` | `source/am/twlexport.c:59-64` | for every u32 size the offset moves by alignMeta(size) if and only if 1 <= size <= 0xffffffd0 |
| `Cbc.InPieces` | `source/am/twlexport.c:259-275` | decrypting in pieces with the last ciphertext block as next IV is decrypting at once |
| `Cbc.BlockWise` | `source/am/twlexport.c:260` | each plaintext block is the decrypted block xor the ciphertext block before it (section 6.2 of NIST SP 800-38A) |
| `Cbc.DecryptsEncrypted` | `source/am/twlexport.c:260` | decryption of what CBC encryption under the inverse block cipher has made gives the plaintext back |

## Left out

- CiaInstaller.Installer.Write: the file is limited to 2^32 - 64 bytes and its header to tickets of at least 0x2A4 and TMDs of at least 0x210 bytes, because `offset` is a u32 and a CIA without a ticket makes the code jump past the TMD header state (pipe.c:137).
- CiaInstaller.Installer.Write: `written` is not set when the final state ends a call (pipe.c:646); the result then carries no number.
- CiaTheorems.ChunkingIndependent: for runs in which no TMD byte was held back when the contents began and in which the sizes of all enabled contents are multiples of 16, as AES needs; content of another size can be overrun by a block completed at its end.
- CiaInstaller.Installer.FinalMeansInstalled: each content is exactly its region for runs as in the line above; for all others it is displaced as the contract says.
- CiaRuns.InstallPieces: that no call fails is an assumption on AM9 and the memory, whose answers are arbitrary, and on the title ids.
- CiaInstaller.Installer.StepFinalize: `META_END` is computed without 32-bit wrap-around of its parts; the difference to the offset is a u32.
- The install data of pipe.c are one value in a field of the installer, so that buffers are values: the in-place copies into `header`, `cia_content_index`, `buf` and `misalign_buf` are splices, and aliasing between them is not modelled.
- CiaInstaller.Installer.Malloc: whether memory is left is arbitrary here; the allocator is a part of its own.
- `assertNotAmOrFs` (pipe.c:653) stops the system on results that are neither from AM nor from FS; every result is taken to be from one of them.
- Cancelling an install from outside (ipc.c:1264-1267) uses the importing flags, of which the invariant says that they name exactly what is open; the cancel calls themselves are not modelled.
- Media type and database type reach AM9 unchanged and are not recorded.
- LightLock.MutualExclusion: barriers (`__dmb`) and weak memory; every step acts on the latest values.
- LightLock.NeverAllAsleep: spurious wake-ups and thread priorities of the kernel's arbiter; a signal wakes any one sleeper.
- RecursiveLock.OwnershipExact: nothing is said of a run beyond its first early release, after which thread tag, counter and inner lock no longer belong together.
- LightEvent.StickyExact: the lock inside a sticky signal is a plain lock.
- Allocator.Heap.Free: pointers that malloc has not returned or that are already free; the code does not look.
- Allocator.Heap.constructor: less than two words of memory; the code would write outside of them.
- Sha256.Context.Write: pointers into the caller's data are indices into a sequence; a write is shorter than 2^32 bytes, as its length is a 32-bit `size_t`.
- DemoDatabase.Database.GetLaunchInfos: byte offsets into the file are modelled for title ids; play counts are read by index, and the seven unused bytes of an entry are not kept.
- DemoDatabase.Database.constructor: opening an existing database, whose header is taken as it is; the file system's failures stop the system.
- Crash consistency of the save archive and the lock around each database operation.
- TwlSection.ProcessSection: a working buffer of less than 16 bytes, for which the loop does not end.
- TwlSection.ProcessSection: title id, export type, content index and save size are passed on to AM9 and not recorded; the file handle, which is closed when the metadata cannot be read, is not modelled.
- The AES block cipher and the MAC are arbitrary functions and answers of AM9.
- Banner, header and footer of a TWL export and the loop over its sections (twlexport.c:335-606), the conversion of old headers, and size arithmetic of exports.
- IPC dispatch, service sessions, thread start-up and shutdown, CIA size arithmetic, debug printing and the export script: thin or easy next to the above.
