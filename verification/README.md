# V7 Unix: models and proofs

This project models the algorithmic parts of Seventh Edition Unix that have a hard contract, and
proves them in Dafny. The models take the form of the C code: arrays, buffers and links that are
updated in place are arrays and object fields here, and each such method is proved against a
specification of its own. `dafny verify dfyconfig.toml` verifies everything.

| modules | what they model |
|---|---|
| `DiffMatching`, `DiffClasses`, `DiffStone`, `DiffEngine` | diff's matching engine: pruning, equivalence classes by sorting, Stone's k-candidate algorithm, unravel |
| `DiffOutput`, `DiffScript`, `DiffStream`, `DiffProgram` | diff's scripts in both orders, what ed makes of them, and the whole program |
| `BufferProtocol`, `BufferSafety`, `BufferRuns`, `BufferSeen`, `BufferOrder` | the kernel buffer cache as atomic steps between sleeps, with completions at interrupt time |
| `BufferRings`, `BufferCache` | the same routines on their doubly linked lists |
| `DbmPage`, `DbmDirectory`, `DbmHash`, `DbmKeys`, `DbmTrie`, `DbmTable`, `DbmModel`, `DbmPairs`, `DbmStore` | dbm: slotted pages, the directory of bits, extendible hashing, and the finite map it is |
| `DbmOrder`, `DbmLeaves`, `DbmWalk` | dbm's walk over all keys |
| `MpNumber`, `MpAdd`, `MpMult`, `MpDivide`, `MpLong`, `MpGcd`, `MpSqrt` | libmp: arithmetic in base 2^15 with 16-bit ints and 32-bit longs |
| `AllocArena`, `Alloc` | the storage allocator with its arena of headers |
| `RestorDisk`, `RestorFree`, `RestorTree`, `RestorPaths`, `RestorInode`, `RestorOrder`, `RestorFile`, `RestorCount`, `RestorMap`, `RestorRun` | restor's block cache, free list, indirect blocks and file building |
| `SortQuick` | sort's quicksort with a fat pivot |
| `GrepMatch`, `GrepCompile`, `GrepSyntax`, `GrepErrors` | grep's patterns, what they mean and which are read past their end, and the matcher |
| `DumpMap`, `DumpClosure` | dump's choice of inodes |
| `Tsort` | tsort, with findloop |
| `Rotor` | the rotor machine of crypt and ed |
| `Arith` | division facts shared by some of these |

How they are modelled:

- Integers are unbounded; where the width matters it is written out (libmp's `Int16`, `Int32` and
  `Low15`, the 32-bit hash of dbm, the 31-bit file offsets that bound its trie).
- A process sleeping or an interrupt is a boundary between steps: the buffer cache is a state
  machine whose runs are arbitrary interleavings of them, and its class performs every step on the
  real links (`BufferCache.Cache.Perform`).
- Files, disks, tapes, the random stream and sbrk are sequences, maps and parameters.
- A run of the allocator, of restor or of dbm is any sequence of calls: each method requires and
  re-establishes the whole invariant.
- Comparison and hash functions are parameters wherever the result does not depend on which they
  are (sort, diff).

Where the code does not do what one would expect, the exact condition is proved:

- `diff -e` recreates the new file through ed, which may read a file or a pipe, if and only if no
  line to be created is a lone dot (`DiffProgram.DiffEd`). This is about an ed that knows no
  commands but those diff prints: text left over after a lone dot may happen to be another command.
  A lone dot that stays where it was does no harm.
- diff's script is smallest if and only if the mates that check leaves are as many as the files have
  lines in common; a mate broken by a collision may cost a longer script (`DiffProgram.Diff`,
  `DiffProgram.CollisionCosts`).
- bread returns the last write of a block unless a valid buffer of it has been changed and released
  unwritten since, as writei does when iomove fails; after any such release of other contents the
  next bread does not (`BufferRuns.BreadReturnsLatest`, `BufferRuns.SpoilShows`). What it returns
  then, until the next write or until the buffer is given away, is in `BufferSeen.BreadReturnsSeen`.
- dbm's store rejects entries of 508 bytes and more, but those of 506 and 507 never fit a page
  either; the code then splits without end, as it does when too many entries share their hash
  bits. The manual (man3/dbm.3x, lines 122-131) says that a total of 512 is possible and that
  store returns an error; the model follows the code, and stops where page numbers outgrow the
  file offset. `DbmStore.Database.Store` says exactly when each outcome occurs. After a store
  that splits without end the file has lost the old value of the key if there was room for one
  split; otherwise the buffered page has lost it and the file still has it.
- A grep pattern that ends in a lone backslash, or in a class with a range without an end, makes
  compile read past its end; a class anywhere in it with a char of eight bits that is a member or
  begins a range makes compile set a bit outside the class, chars being signed, while such a char at
  the end of a range is harmless. `GrepErrors.TextTells` has the exact conditions.
- free's first assertion fails for a block at the word after the initial arena and for no other
  (`Alloc.Allocator.Free`), and there is one exactly if the first sbrk returns that word
  (`Alloc.FirstFree`).
- libmp's msub of a negative number and one that is not positive has the wrong sign
  (`MpAdd.MsubSigned`), so that mcmp takes two negative numbers of one length the wrong way round
  (`MpAdd.McmpSigned`); mdiv by a negative number that does not divide evenly breaks a = q b + r
  (`MpLong.MDivSigned`); and mult by zero makes a zero with leading digits (`MpMult.Mult`). The
  members named `Fails` beside them have an input for each.
- restor's bmap allocates a direct block anew even if it has an address, and loses the old one
  (`RestorMap.Bmap`).
- The starting gap of diff's sort is uninitialised when there is nothing to sort; it is a
  parameter here.

## Model

| member | source | states |
|---|---|---|
| `DiffMatching.PruneBound` | v7/usr/src/cmd/diff.c:244-259 | taking off an equal prefix of f lines and an equal suffix of g lines shortens any common subsequence by at most f + g: pruning never hides a longer one |
| `DiffMatching.LcsLengthUnique` | v7/usr/src/cmd/diff.c:28-47 | two files have one longest common length |
| `DiffClasses.Prune` | v7/usr/src/cmd/diff.c:244-259 | the ends taken off are equal and as long as they can be (prefix first); line values stay, and what is left is numbered from 1 |
| `DiffClasses.Sift` | v7/usr/src/cmd/diff.c:158-172 | one drift of a line by steps of the gap rearranges the window only, and with gap 1 puts the line in its place |
| `DiffClasses.Pass` | v7/usr/src/cmd/diff.c:156-173 | a pass with any gap rearranges the window, a pass with gap 1 sorts it by value and serial |
| `DiffClasses.Sort` | v7/usr/src/cmd/diff.c:145-175 | shellsort leaves a sorted permutation of the window and nothing else changed, whatever the starting gap holds when there is nothing to sort |
| `DiffClasses.Place` | v7/usr/src/cmd/diff.c:266-277 | every old line gets the place of the first new line of its value in the sorted new file, 0 if it has none |
| `DiffClasses.Squeeze` | v7/usr/src/cmd/diff.c:277-286 | the member words are written over the new file while it is still being read, and none is clobbered before it is read |
| `DiffClasses.Equiv` | v7/usr/src/cmd/diff.c:261-287 | both loops: class places for the old file, runs of serials with their first negated for the new one, and a final sentinel |
| `DiffClasses.Unsort` | v7/usr/src/cmd/diff.c:177-189 | values return to file order through the serials, into words that overlay the sorted file |
| `DiffClasses.ClassFound` | v7/usr/src/cmd/diff.c:261-287 | the run of member words from a class place on lists exactly the new lines of that value, in increasing order |
| `DiffClasses.ClassesClassify` | v7/usr/src/cmd/diff.c:261-287 | the class and member words satisfy all that stone relies on |
| `DiffStone.Pot.NewCand` | v7/usr/src/cmd/diff.c:399-408 | the candidate is appended and its index returned; earlier candidates never change |
| `DiffStone.ChainIsMatching` | v7/usr/src/cmd/diff.c:28-47 | following pred from a candidate of rank k spells a common subsequence of length k that ends at that candidate |
| `DiffStone.Search` | v7/usr/src/cmd/diff.c:410-429 | binary search returns the only slot where y can go: below it smaller, from it on not smaller |
| `DiffStone.RowBounds` | v7/usr/src/cmd/diff.c:358-397 | any common subsequence that uses old line i is bounded by the finished row |
| `DiffStone.RowKeepsOptimal` | v7/usr/src/cmd/diff.c:358-397 | a row keeps the invariant: klist[l] is the smallest y that ends a common subsequence of length l of the lines so far |
| `DiffStone.UnmatchedKeepsOptimal` | v7/usr/src/cmd/diff.c:370-372 | an old line with no equal new line leaves the vector optimal |
| `DiffStone.KlistHoldsKCandidates` | v7/usr/src/cmd/diff.c:28-47 | the entries of the vector are exactly the k-candidates that the header comment defines, and no common subsequence is longer than k |
| `DiffStone.Offer` | v7/usr/src/cmd/diff.c:376-394 | one new line offered to the row keeps the row state although the replaced entry is saved one step late |
| `DiffStone.StoneRow` | v7/usr/src/cmd/diff.c:369-395 | a whole row: optimal for i - 1 lines before, for i lines after |
| `DiffStone.Stone` | v7/usr/src/cmd/diff.c:358-397 | on return the vector is optimal for the whole old file |
| `DiffEngine.MatesAreCommon` | v7/usr/src/cmd/diff.c:431-441 | a match vector that rises on its nonzero entries and pairs equal lines is a common subsequence |
| `DiffEngine.LayEnds` | v7/usr/src/cmd/diff.c:434-437 | the pruned ends are laid down as mates, leaving room for any chain between them |
| `DiffEngine.Unravel` | v7/usr/src/cmd/diff.c:431-441 | prefix, chain and suffix together are a match vector with pref + k + suff mates |
| `DiffEngine.MatchedIsLongest` | v7/usr/src/cmd/diff.c:244-259 | if the chain is longest between the pruned ends, the whole vector is a longest common subsequence of the files |
| `DiffEngine.Classes` | v7/usr/src/cmd/diff.c:328-337 | sort, equiv and unsort together produce the classes of the pruned files |
| `DiffEngine.MatchFiles` | v7/usr/src/cmd/diff.c:325-346 | for any two sequences of nonzero line values: J is a match vector and the number of its mates is the true length of a longest common subsequence |
| `DiffProgram.Check` | v7/usr/src/cmd/diff.c:448-510 | mates whose lines differ are broken, all others are kept, and a match vector of the lines themselves is left |
| `DiffProgram.MatchLines` | v7/usr/src/cmd/diff.c:325-352 | the checked vector pairs equal lines: it is a longest match of the values less exactly the mates whose lines differ, and with no collision less nothing; where the files begin alike equal lines are mates |
| `DiffOutput.OutputForward` | v7/usr/src/cmd/diff.c:519-549 | for every match vector the forward hunks turn the old file into exactly the new one and delete exactly the unmated lines; none is empty, a kept line is between any two, and they are the one change between each pair of successive mates, in order; the loop ends although pure insertions do not advance i0 |
| `DiffOutput.OutputBackward` | v7/usr/src/cmd/diff.c:534-547 | the -e commands, run in the order printed, each have valid addresses when they run and leave the new file; read backwards they are the very hunks of the forward loop |
| `DiffOutput.HunksLaws` | v7/usr/src/cmd/diff.c:519-570 | the changes between successive mates of any match vector make the new file, delete just the unmated lines, are not empty and have a kept line between any two |
| `DiffProgram.NothingToDo` | v7/usr/src/cmd/diff.c:551-553 | a script without empty hunks, whose mates take in where the files begin alike, is empty if and only if the files are equal |
| `DiffOutput.ChangeAccounts` | v7/usr/src/cmd/diff.c:551-570 | after a change the script has produced the new lines up to its end out of the old lines up to its end, has passed just those, and deletes the lines of the change more; a change that is empty on both sides needs no hunk for that |
| `DiffOutput.EdChange` | v7/usr/src/cmd/diff.c:551-570 | the command printed for a change, run on the buffer that the later changes have left, makes it the old lines before the change and the new lines from it on |
| `DiffScript.ReadBackward` | v7/usr/man/man1/diff.1:45-51 | reading the script backward with a and d exchanged turns the new file into the old one |
| `DiffScript.KeptIsCommon` | v7/usr/man/man1/diff.1:108-111 | the lines that any script keeps are a common subsequence |
| `DiffScript.NoSmallerScript` | v7/usr/man/man1/diff.1:108-111 | every script that makes b out of a deletes at least |a| - n and adds at least |b| - n lines, n being the longest common length |
| `DiffScript.KeptInAll` | v7/usr/man/man1/diff.1:108-111 | what a script that makes b out of a keeps is a common subsequence of |a| less the deletions |
| `DiffScript.ScriptFor` | v7/usr/man/man1/diff.1:108-111 | for every common subsequence there is a script that makes b out of a and keeps just it |
| `DiffScript.SmallestScript` | v7/usr/man/man1/diff.1:108-111 | a script that keeps n lines is a smallest one if and only if n is the longest common length |
| `DiffProgram.Diff` | v7/usr/src/cmd/diff.c:325-353 | for every hash function the script makes the new file and deletes just the lines without a mate in a longest match of values, mates of different lines taken out; no hunk is empty, a kept line is between any two, and there is none if and only if the files are equal; no script is smaller if and only if the mates left are as many as the lines of the files have in common, which holds whenever none was taken out, and so without a collision |
| `DiffProgram.ScriptIsGood` | v7/usr/src/cmd/diff.c:519-570 | all this follows for the script of the match vector that check leaves |
| `DiffProgram.CollisionCosts` | v7/usr/src/cmd/diff.c:448-510 | a pair of files and a hash for which the script is right but not smallest |
| `DiffStream.ReadPrinted` | v7/usr/src/cmd/diff.c:551-595 | a printed command is read back by ed, with the rest of the script, exactly when its text has no lone dot |
| `DiffStream.ReadBack` | v7/usr/man/man1/diff.1:134-138 | ed reads back the very commands printed if and only if no line to be created is a lone dot |
| `DiffStream.ExecuteIsEdRun` | v7/usr/src/cmd/diff.c:551-570 | running the commands as text is running the hunks |
| `DiffStream.EdRecreates` | v7/usr/man/man1/diff.1:75-86 | feeding the printed text to ed, from a file or a pipe, makes the new file out of the old one if and only if no line to be created is a lone dot, as long as no left-over line of text is a command of ed |
| `DiffProgram.LoneDotIsLost` | v7/usr/man/man1/diff.1:134-138 | for every hash the -e script from an empty file to one lone dot fails |
| `DiffProgram.DiffEd` | v7/usr/src/cmd/diff.c:519-595 | diff -e from two files to text: the commands run to the new file, read backwards they are the script that diff prints, and ed makes the new file from the text if and only if no line to be created is a lone dot (unchanged lines may be), left-over lines that are commands of ed apart |
| `DiffProgram.HonestHunks` | v7/usr/src/cmd/diff.c:244-259 | wherever ed stops in the script, if the old lines still in place also begin the new file, the script has come down to the same place in both files; pruning sees to that, and so a script cut short never gives the new file by accident |
| `BufferSafety.ReplaceKeeps` | v7/usr/sys/dev/bio.c:237-302 | a buffer may change its block or contents without losing anything if it owes nothing or keeps its block, no other buffer has the new one, and the new one is accounted for or spoiled |
| `BufferSafety.WriteOutKeeps` | v7/usr/sys/dev/bio.c:125-144 | starting the write of a delayed buffer changes nothing a reader can see |
| `BufferSafety.GrabKeeps` | v7/usr/sys/dev/bio.c:279-302 | reassigning the oldest available buffer loses no write |
| `BufferSafety.GetblkKeeps` | v7/usr/sys/dev/bio.c:237-302 | a pass of getblk keeps the invariant on each of its ways out |
| `BufferSafety.ReadFetches` | v7/usr/sys/dev/bio.c:55-77 | a completed read has fetched what the plain disk holds: no other buffer owed the block |
| `BufferSafety.CompleteKeeps` | v7/usr/sys/dev/bio.c:374-387 | an interrupt-time completion keeps the invariant, asynchronous or not |
| `BufferSafety.BdwriteKeeps` | v7/usr/sys/dev/bio.c:154-166 | a delayed write is from then on what readers see, on a tape by way of bawrite |
| `BufferSafety.StepKeeps` | v7/usr/sys/dev/bio.c:55-387 | every atomic step of a process or the device keeps the invariant, with a plain disk following along |
| `BufferRuns.RunKeeps` | v7/usr/sys/dev/bio.c:55-472 | the invariant holds after every step of every interleaved run |
| `BufferRuns.AlwaysListed` | v7/usr/sys/dev/bio.c:182-212 | in every reachable state a buffer is on the available list exactly when it is not busy, and no block has two buffers |
| `BufferRuns.BreadReturnsLatest` | v7/usr/sys/dev/bio.c:55-119 | in every run the buffer bread returns is held by the caller and has what was last written to its block by bwrite, bawrite or bdwrite, unless a valid buffer of the block has been changed and released unwritten since |
| `BufferRuns.BusyKeepsBlock` | v7/usr/sys/dev/bio.c:237-302 | a busy buffer keeps its block under every step of anyone |
| `BufferRuns.BreadGetsItsBlock` | v7/usr/sys/dev/bio.c:55-77 | a process that got a buffer for a block from getblk and waited for its read ends up holding the buffer of just that block, with the last write of it unless spoiled, whatever the others do meanwhile |
| `BufferRuns.NoWriteLost` | v7/usr/sys/dev/bio.c:237-302 | whenever the disk differs from the latest write of a block, a buffer of that block still owes it, with the same exception |
| `BufferRuns.SyncedDisk` | v7/usr/sys/dev/bio.c:456-472 | once nothing is owed the disk has every latest write, with the same exception |
| `BufferRuns.SpoiledIs` | v7/usr/sys/dev/bio.c:182-212 | the blocks recorded as spoiled are those of which a valid buffer was changed and released unwritten since their last write |
| `BufferRuns.SpoilShows` | v7/usr/sys/sys/rdwri.c:115-122 | after any run that ends in such a release, with contents other than the last written, a bread of the block returns what nobody wrote |
| `BufferRuns.ChangedAndReleased` | v7/usr/sys/sys/rdwri.c:115-122 | there is such a run: a block is read, changed and released as writei does when iomove fails |
| `BufferSeen.LookStep` | v7/usr/sys/dev/bio.c:55-387 | what reads find changes at each step only as told: by a write, by the release of an unwritten change, and back to the disk when the buffer is given to another block |
| `BufferSeen.BreadReturnsSeen` | v7/usr/sys/dev/bio.c:55-119 | in every run, without exception, bread returns what was last written or last released unwritten, or what was on the disk when the buffer was given away, whichever came last |
| `BufferSeen.SeenUnspoiled` | v7/usr/sys/dev/bio.c:55-302 | for a block that is not spoiled that is the last write |
| `BufferRuns.HeldIsExclusive` | v7/usr/include/sys/buf.h:6-15 | no step of another process, of the device or of bflush touches a held buffer |
| `BufferOrder.RunCalm` | v7/usr/sys/dev/bio.c:125-387 | in every run: no buffer of a tape is B_DELWRI, B_READ tells the direction of a transfer, who sleeps for a buffer sleeps for a busy one, who sleeps for any buffer does so only while none is available, and once the transfer that bwrite waits for is over the disk has the contents |
| `BufferOrder.NoVainSleep` | v7/usr/sys/dev/bio.c:279-284 | no step leaves someone asleep for any buffer while one is available |
| `BufferOrder.UnderWay` | v7/usr/sys/dev/bio.c:125-177 | after bwrite and bawrite, and after bdwrite on a tape, the transfer is under way with the contents as they were; after bdwrite on another device it is left for later, the buffer available and B_DELWRI |
| `BufferOrder.TapeStep` | v7/usr/sys/dev/bio.c:154-166 | on a tape a step starts just the transfer that its call asks for: neither getblk nor bflush starts one |
| `BufferOrder.TapeInOrder` | v7/usr/sys/dev/bio.c:146-166 | in every run the transfers to a tape are started in the order of the calls of bwrite, bawrite and bdwrite, with their contents, and no buffer of the tape is ever delayed |
| `BufferOrder.WritingStays` | v7/usr/sys/dev/bio.c:125-144 | no step of anyone but its end touches the block and contents that a bwrite is waiting for |
| `BufferOrder.BwriteIsOnDisk` | v7/usr/sys/dev/bio.c:125-144 | in every run, when bwrite returns the disk has the contents it was called with |
| `BufferOrder.OldestGoesFirst` | v7/usr/sys/dev/bio.c:182-302 | in every run the buffer that getblk gives away is one released with B_AGE, the last such one, or if there is none the one released longest ago |
| `BufferRings.RingUnlink` | v7/usr/sys/dev/bio.c:358-368 | the two assignments of notavail take the element out of a doubly linked ring and keep it a ring |
| `BufferRings.RingInsertFront` | v7/usr/sys/dev/bio.c:197-202 | linking in after the header keeps a ring, the element first |
| `BufferRings.RingInsertBack` | v7/usr/sys/dev/bio.c:203-209 | linking in before the header keeps a ring, the element last |
| `BufferCache.Reassign` | v7/usr/sys/dev/bio.c:292-301 | moving a buffer to the chain of another device leaves all chains rings with each buffer on exactly one |
| `BufferCache.Cache.constructor` | v7/usr/sys/sys/main.c:127-155 | binit makes well-formed rings with every buffer available and associated with no device |
| `BufferCache.Cache.Incore` | v7/usr/sys/dev/bio.c:218-230 | the chain walk finds a block exactly when some buffer has it |
| `BufferCache.Cache.NotAvail` | v7/usr/sys/dev/bio.c:358-368 | on the links: the step of the protocol, all rings kept |
| `BufferCache.Cache.Grab` | v7/usr/sys/dev/bio.c:279-302 | take, write out or reassign the oldest available buffer, as the protocol says |
| `BufferCache.Cache.Getblk` | v7/usr/sys/dev/bio.c:237-302 | one pass over the real links is one step of the protocol; panic exactly for a major number that is too large or a device without a d_tab |
| `BufferCache.Cache.Geteblk` | v7/usr/sys/dev/bio.c:308-337 | one pass of geteblk is one step of the protocol |
| `BufferCache.Cache.StartRead` | v7/usr/sys/dev/bio.c:55-119 | starting a read, or a read ahead, of a block that is not valid in core |
| `BufferCache.Cache.Bwrite` | v7/usr/sys/dev/bio.c:125-144 | the plain disk gets the contents at once, whatever the device does later |
| `BufferCache.Cache.Bawrite` | v7/usr/sys/dev/bio.c:171-177 | the same without a wait |
| `BufferCache.Cache.Bdwrite` | v7/usr/sys/dev/bio.c:154-166 | the same with the write left for later, or started at once on a tape |
| `BufferCache.Cache.Brelse` | v7/usr/sys/dev/bio.c:182-212 | the buffer goes to the front or the back of the available ring by its age flag |
| `BufferCache.Cache.Iodone` | v7/usr/sys/dev/bio.c:374-387 | the completion of a transfer is one step of the protocol |
| `BufferCache.Cache.ReadWaited` | v7/usr/sys/dev/bio.c:55-77 | the end of the wait of bread gives the caller the block |
| `BufferCache.Cache.WriteWaited` | v7/usr/sys/dev/bio.c:125-144 | the end of the wait of bwrite releases the buffer |
| `BufferCache.Cache.Change` | v7/usr/sys/sys/rdwri.c:115-122 | the holder changes the contents in core; disk and plain disk stay |
| `BufferCache.Cache.Perform` | v7/usr/sys/dev/bio.c:55-472 | every enabled step of the protocol, on the links: the abstract state takes the step, the plain disk follows and all rings stay rings |
| `BufferCache.Cache.SetAge` | v7/usr/sys/dev/bio.c:136-143 | the age flag set after the strategy call, possibly after completion, is harmless |
| `BufferCache.Cache.NextDue` | v7/usr/sys/dev/bio.c:461-470 | the search finds an available delayed write of the device, or there is none |
| `BufferCache.Cache.Bflush` | v7/usr/sys/dev/bio.c:456-472 | every delayed write of the device is started, its buffer marked B_AGE, and nothing else changes; the restarted search ends |
| `DbmPage.PackedFits` | v7/usr/src/libdbm/dbm.c:420-442 | the items of a well-packed page never exceed its room |
| `DbmPage.Makdatum` | v7/usr/src/libdbm/dbm.c:280-302 | the n-th item of the page, or the null datum outside the range |
| `DbmPage.PageLayout` | v7/usr/src/libdbm/dbm.c:280-302 | where things are on a page: the count in the first word, then the offsets, the items packed downward from the end |
| `DbmPage.Additem` | v7/usr/src/libdbm/dbm.c:420-442 | fails exactly when the item does not fit with its offset and one spare byte, leaving the page alone; otherwise the items are the old ones and it |
| `DbmPage.Delitem` | v7/usr/src/libdbm/dbm.c:387-418 | the in-place shuffle of bytes and offsets leaves exactly the other items in order; out of range is where the source aborts |
| `DbmPage.Chkblk` | v7/usr/src/libdbm/dbm.c:444-465 | never rejects a well-packed page |
| `DbmDirectory.Directory.Getbit` | v7/usr/src/libdbm/dbm.c:229-250 | whether the bit is in the set the directory file stands for, through the one-block cache |
| `DbmDirectory.Directory.Setbit` | v7/usr/src/libdbm/dbm.c:252-268 | exactly one bit is added to the set, though the block may not be the cached one and the file may have to grow |
| `DbmDirectory.BitLayout` | v7/usr/src/libdbm/dbm.c:229-268 | bit k is bit k modulo 8 of byte k / 8 of the directory file |
| `DbmHash.Calchash` | v7/usr/src/libdbm/dbm.c:366-385 | the two loops compute the hash of a key, which `DbmHash.HashIsSum` characterises, in 16 and 32 bits |
| `DbmHash.HashIsSum` | v7/usr/src/libdbm/dbm.c:366-385 | for the half bytes of the key, low half first, the hash is the sum of the entries of hltab at the running sums of the entries of hitab, the sums taken without bounds and cut to six bits as an index and to 32 bits in the end |
| `DbmKeys.OneByteApart` | v7/usr/src/libdbm/dbm.c:324-385 | the 256 keys of one byte have 256 distinct hashes |
| `DbmTrie.NodeUnique` | v7/usr/src/libdbm/dbm.c:214-219 | distinct trie nodes have distinct bit numbers |
| `DbmTrie.OnePageOneLeaf` | v7/usr/src/libdbm/dbm.c:209-227 | distinct leaves have distinct page numbers |
| `DbmTrie.SameLeaf` | v7/usr/src/libdbm/dbm.c:209-227 | two hashes lead to one page exactly when they agree in the bits of its leaf |
| `DbmTrie.HomeExactly` | v7/usr/src/libdbm/dbm.c:209-227 | the page of a hash is its lowest d bits for the first d whose node has no bit in the directory |
| `DbmTrie.SplitTree` | v7/usr/src/libdbm/dbm.c:115-144 | splitting a leaf leaves a trie |
| `DbmTrie.SplitHome` | v7/usr/src/libdbm/dbm.c:121-144 | after a split the next hash bit tells the entries of the leaf apart, every other entry stays, and none of them is on the page taken into use |
| `DbmTable.LookupPart` | v7/usr/src/libdbm/dbm.c:121-138 | each key is found in the part its hash bit sends it to as it was before |
| `DbmModel.AddKeeps` | v7/usr/src/libdbm/dbm.c:104-113 | adding an entry to its page updates the map at its key |
| `DbmModel.RemoveKeeps` | v7/usr/src/libdbm/dbm.c:63-83 | deleting the pair removes just its key from the map |
| `DbmModel.NewPageEmpty` | v7/usr/src/libdbm/dbm.c:139-142 | nothing is on the page that a split takes into use |
| `DbmModel.SplitKeeps` | v7/usr/src/libdbm/dbm.c:120-143 | a split moves entries without losing, adding or changing any |
| `DbmModel.DeepPage` | v7/usr/src/libdbm/dbm.c:115-144 | on a page that cannot be split further are exactly the entries that share all hash bits with the key |
| `DbmModel.StoredFits` | v7/usr/src/libdbm/dbm.c:104-113 | whatever is stored fits on one page with the entries of like hash |
| `DbmPairs.Find` | v7/usr/src/libdbm/dbm.c:94-103 | the scan finds the key of a page if and only if it is there |
| `DbmPairs.AddPair` | v7/usr/src/libdbm/dbm.c:104-110 | both items go in or neither stays, and which is decided by the room for the pair |
| `DbmPairs.Divide` | v7/usr/src/libdbm/dbm.c:120-138 | the split loop leaves the entries without the next hash bit, in order, and moves the others, in order; neither the overflow page nor the pairing fails |
| `DbmStore.EmptyFiles` | v7/usr/man/man3/dbm.3x:65-67 | two zero-length files are an empty map |
| `DbmStore.Database.constructor` | v7/usr/src/libdbm/dbm.c:5-24 | opening files that stand for a map gives a database of that map |
| `DbmStore.Database.Access` | v7/usr/src/libdbm/dbm.c:209-227 | the page of the hash is in the buffer, hmask, blkno and bitno name its leaf, and the block test does not abort |
| `DbmStore.Database.Fetch` | v7/usr/src/libdbm/dbm.c:42-61 | the value of the key in the map, the null datum if it has none |
| `DbmStore.Database.Delete` | v7/usr/src/libdbm/dbm.c:63-83 | removes the key from the map; -1 exactly if it was not there |
| `DbmStore.Database.SplitBuffered` | v7/usr/src/libdbm/dbm.c:120-143 | both pages and the directory bit are written and the map is what the buffer made it |
| `DbmStore.Database.Pass` | v7/usr/src/libdbm/dbm.c:92-144 | one pass of store: done, too big, or a split one level deeper with the key out of the map |
| `DbmStore.Database.Store` | v7/usr/src/libdbm/dbm.c:85-145 | stores the pair if and only if it fits on a page with the entries that share its 22 low hash bits; reports too big exactly from 508 bytes on and leaves the map; otherwise no split ever makes room, and the map loses the key exactly if a split was made first. After a failure the buffer disagrees with the file exactly when the key is still there |
| `DbmStore.TooBigNeverFits` | v7/usr/src/libdbm/dbm.c:115-119 | entries of 506 and 507 bytes pass the size test but can never be stored |
| `DbmStore.AloneFits` | v7/usr/src/libdbm/dbm.c:85-145 | an entry alone in its hash class can be stored exactly below 506 bytes |
| `DbmStore.Database.Session` | v7/usr/src/libdbm/dbm.c:42-145 | any sequence of store, delete and fetch whose stores return gives the answers of a finite map |
| `DbmOrder.Cmpdatum` | v7/usr/src/libdbm/dbm.c:304-322 | the loop computes the order of keys: by length, then by the first differing signed byte |
| `DbmOrder.CompareZero` | v7/usr/src/libdbm/dbm.c:304-322 | zero exactly for equal keys, and antisymmetric |
| `DbmOrder.BeforeExactly` | v7/usr/src/libdbm/dbm.c:304-322 | a key is before another if and only if it is shorter, or as long with the smaller signed byte at the first difference |
| `DbmOrder.BeforeTransitive` | v7/usr/src/libdbm/dbm.c:304-322 | the order of keys is transitive |
| `DbmLeaves.LeavesApart` | v7/usr/src/libdbm/dbm.c:348-364 | in depth-first order the leaves cover disjoint ranges |
| `DbmLeaves.Hashinc` | v7/usr/src/libdbm/dbm.c:348-364 | returns the hash at the start of the next leaf in depth-first order, 0 exactly after the last |
| `DbmWalk.ScanFirst` | v7/usr/src/libdbm/dbm.c:193-202 | the largest key of the page |
| `DbmWalk.ScanBelow` | v7/usr/src/libdbm/dbm.c:164-177 | the largest key of the page below the given one |
| `DbmWalk.Firsthash` | v7/usr/src/libdbm/dbm.c:184-207 | the first key, in walk order, at or after the leaf of a hash |
| `DbmWalk.Firstkey` | v7/usr/src/libdbm/dbm.c:147-151 | the first of all keys, none exactly for the empty map |
| `DbmWalk.Nextkey` | v7/usr/src/libdbm/dbm.c:153-182 | the first of the keys that follow, whether or not the key given is still stored |
| `DbmWalk.FollowsTransitive` | v7/usr/src/libdbm/dbm.c:153-207 | walk order is transitive |
| `DbmWalk.Walk` | v7/usr/man/man3/dbm.3x:92-94 | the traversal loop of the manual gives every stored key exactly once and ends |
| `MpNumber.Mcan` | v7/usr/src/libmp/util.c:46-58 | drops leading zeros and keeps the value |
| `MpAdd.MAdd` | v7/usr/src/libmp/madd.c:2-36 | the digits of the sum; canonical if the operands are |
| `MpAdd.Madd` | v7/usr/src/libmp/madd.c:37-68 | the sum of magnitudes, whichever operand is longer |
| `MpAdd.MaddSigned` | v7/usr/src/libmp/madd.c:37-68 | the sum of numbers of either sign |
| `MpAdd.MSub` | v7/usr/src/libmp/madd.c:69-108 | the signed difference, a negative one recovered by complement and add one |
| `MpAdd.Msub` | v7/usr/src/libmp/madd.c:109-146 | the signed difference of magnitudes, whichever operand is longer |
| `MpAdd.MsubSigned` | v7/usr/src/libmp/madd.c:109-146 | the difference for operands of either sign; it is negated for a negative number minus one that is not positive, and wrong exactly then and if they differ |
| `MpAdd.MsubFails` | v7/usr/src/libmp/madd.c:109-146 | -1 minus -2 comes out as -1 |
| `MpAdd.Mcmp` | v7/usr/src/libmp/util.c:79-88 | the sign of the difference of nonnegative numbers |
| `MpAdd.McmpSigned` | v7/usr/src/libmp/util.c:79-88 | the sign of the difference of any numbers, reversed exactly for two negative numbers of one length |
| `MpAdd.McmpFails` | v7/usr/src/libmp/util.c:79-88 | -1 is found to be below -2 |
| `MpMult.ColumnsProduct` | v7/usr/src/libmp/mult.c:34-78 | the column sums add up to the product |
| `MpMult.Tradd` | v7/usr/src/libmp/mult.c:79-87 | a sum of 31 bits and a 16-bit carry together never lose a unit |
| `MpMult.SumColumn` | v7/usr/src/libmp/mult.c:34-78 | a column is summed without 32-bit overflow into a digit and what is carried on |
| `MpMult.MMult` | v7/usr/src/libmp/mult.c:34-78 | all digits of the product |
| `MpMult.Mult` | v7/usr/src/libmp/mult.c:2-27 | the product of magnitudes; it is canonical exactly if neither is zero or the other one has a single digit |
| `MpMult.MultSigned` | v7/usr/src/libmp/mult.c:2-27 | the product of numbers of either sign, except for two zeros, where the code looks at the word below the array |
| `MpMult.MultFails` | v7/usr/src/libmp/mult.c:2-27 | 32768 times zero is a zero with a digit |
| `MpDivide.SDiv` | v7/usr/src/libmp/mout.c:78-118 | short division: a = n q + r with 0 <= r < n, q canonical |
| `MpDivide.Trq` | v7/usr/src/libmp/mdiv.c:43-54 | the trial digit is the quotient of the leading digits, held below the base, without 32-bit overflow |
| `MpLong.TrialDigit` | v7/usr/src/libmp/mdiv.c:43-54 | the trial digit is never too small and at most one too large |
| `MpLong.SubMul` | v7/usr/src/libmp/mdiv.c:24-32 | q times the divisor is subtracted from the window in place, the borrow staying within 16 bits |
| `MpLong.AddBack` | v7/usr/src/libmp/mdiv.c:34-40 | the divisor is added back with the sign bit of an int as carry |
| `MpLong.Dsb` | v7/usr/src/libmp/mdiv.c:21-42 | one add-back suffices, though it skips the top digit |
| `MpLong.ScaledDivisor` | v7/usr/src/libmp/mdiv.c:78-85 | scaling brings the leading digit of the divisor to half the base without lengthening it |
| `MpLong.DivDigit` | v7/usr/src/libmp/mdiv.c:87-91 | one quotient digit: dividend = quotient so far times divisor plus what is left |
| `MpLong.QuotientTop` | v7/usr/src/libmp/mdiv.c:55-106 | at most one leading digit of the quotient is zero, so dropping one makes it canonical |
| `MpLong.MDiv` | v7/usr/src/libmp/mdiv.c:55-106 | for canonical a and positive b of any length: a = q b + r with 0 <= r < b, both canonical |
| `MpLong.MDivSigned` | v7/usr/src/libmp/mdiv.c:2-20 | for operands of either sign the magnitudes are those of the division of magnitudes, and a = q b + r if and only if b is positive or divides a |
| `MpLong.MDivFails` | v7/usr/src/libmp/mdiv.c:2-20 | 3 divided by -2 breaks the identity |
| `MpGcd.Gcd` | v7/usr/src/libmp/gcd.c:2-18 | a common divisor that every common divisor divides, for operands of either sign and in spite of the signs of the remainders |
| `MpGcd.StepsNext` | v7/usr/src/libmp/gcd.c:28-37 | a step keeps the coefficients of a and b in both remainders, signs alternating with the step count |
| `MpGcd.Conserved` | v7/usr/src/libmp/gcd.c:28-37 | the law that bounds the coefficients |
| `MpGcd.InverseMath` | v7/usr/src/libmp/gcd.c:38-39 | the parity of the step count tells whether the coefficient or its complement is the inverse |
| `MpGcd.Invert` | v7/usr/src/libmp/gcd.c:19-46 | for coprime 0 < a < b: 0 < c < b and a c = 1 modulo b |
| `MpSqrt.FirstGuess` | v7/usr/src/libmp/msqrt.c:12-17 | the first guess is above the root |
| `MpSqrt.NewtonAbove` | v7/usr/src/libmp/msqrt.c:20-30 | a Newton step from above stays above the root |
| `MpSqrt.NewtonStops` | v7/usr/src/libmp/msqrt.c:25-32 | where the step no longer descends, the root is reached |
| `MpSqrt.Msqrt` | v7/usr/src/libmp/msqrt.c:2-37 | the integer square root and the exact remainder, for every a |
| `AllocArena.NoneBetween` | v7/usr/src/libI77/dballoc.c:14-25 | no header lies between a header and the one it points to |
| `AllocArena.LiveDisjoint` | v7/usr/src/libI77/dballoc.c:14-25 | blocks handed out never overlap |
| `AllocArena.Merge` | v7/usr/src/libI77/dballoc.c:62-65 | joining two idle blocks keeps the chain rising and the live blocks as they are |
| `AllocArena.MergeFirst` | v7/usr/src/libI77/dballoc.c:62-66 | joining idle blocks does not change which idle blocks, taken with those that follow, have room first |
| `AllocArena.Split` | v7/usr/src/libI77/dballoc.c:93-100 | carving a block out of a larger idle one keeps the chain and adds just that block |
| `AllocArena.Release` | v7/usr/src/libI77/dballoc.c:108-120 | freeing keeps the chain, and of the assertions of free only the first can fail, for the block at word 2 |
| `AllocArena.Grow` | v7/usr/src/libI77/dballoc.c:86-91 | new memory joins the chain, a gap before it as a busy block |
| `AllocArena.GrownFirst` | v7/usr/src/libI77/dballoc.c:82-91 | after sbrk the first place with room is the idle blocks at the old end if the new memory follows them, otherwise the new memory itself |
| `Alloc.Allocator.constructor` | v7/usr/src/libI77/dballoc.c:37-43 | the two initial words are a chain with nothing in it, the break right after them or further on |
| `Alloc.Allocator.Coalesce` | v7/usr/src/libI77/dballoc.c:61-65 | the idle blocks that follow are joined to an idle one up to the next busy header, and every run of idle blocks is where it was |
| `Alloc.Allocator.Search` | v7/usr/src/libI77/dballoc.c:59-81 | finds a block if and only if some idle blocks that follow each other have room together; it is the first such place from the start upward, or else from the bottom; otherwise the search has been around; neither an assertion nor the corrupt-arena exit is met |
| `Alloc.Allocator.Extend` | v7/usr/src/libI77/dballoc.c:82-91 | the arena grows by the request rounded up to whole multiples of 512 words, and the first place with room is known |
| `Alloc.Allocator.Malloc` | v7/usr/src/libI77/dballoc.c:46-105 | a new block of the size asked for, apart from all live ones, whose words are untouched; the arena stays as large as it is if and only if some idle blocks that follow each other have room, and the block is then the first such place from allocp around the chain; otherwise it grows by exactly one rounded request, and the block is at the old end or in the new memory; allocp is again a header; the one data word a split may overwrite is kept in allocx |
| `Alloc.Allocator.Free` | v7/usr/src/libI77/dballoc.c:108-120 | only the busy bit of the block changes; the assertions hold for every live block except one at the word after the initial arena |
| `Alloc.FirstFree` | v7/usr/src/libI77/dballoc.c:108-120 | a program that gets a block and frees it passes the first assertion of free if and only if the first sbrk does not return the word after the initial arena; once there is a gap every call keeps it, and no free fails |
| `Alloc.Allocator.MoveBreak` | v7/usr/src/libI77/dballoc.c:14-25 | others may move the break, which leaves a gap |
| `Alloc.Allocator.Write` | v7/usr/src/libI77/dballoc.c:14-25 | a user who stays within a live block does not harm the arena |
| `Alloc.Allocator.Realloc` | v7/usr/src/libI77/dballoc.c:135-159 | the first min(old, new) words are preserved for a block freed or in use, even when the new block overlaps it from below and a split overwrote one of its words |
| `RestorDisk.Disk.Dwrite` | v7/usr/src/cmd/restor.c:712-736 | the block is written through and the cached copy with it |
| `RestorDisk.Disk.Dread` | v7/usr/src/cmd/restor.c:738-772 | always the last block written, whichever slot is replaced |
| `RestorFree.FreeRoundTrip` | v7/usr/src/cmd/restor.c:853-902 | a spilled part of the free list is read back as written, count first and then the addresses |
| `RestorFree.FileSys.Bfree` | v7/usr/src/cmd/restor.c:853-870 | pushes the block on a stack kept in the superblock and in chained free blocks; no other block changes |
| `RestorFree.FileSys.Pop` | v7/usr/src/cmd/restor.c:872-893 | takes the block freed last off the stack, reading the next part of the chain when the superblock runs out; 0 exactly when the stack is empty |
| `RestorFree.FileSys.Balloc` | v7/usr/src/cmd/restor.c:872-902 | pops the block freed last and zeroes it; fails exactly when the stack is empty |
| `RestorTree.IndirRoundTrip` | v7/usr/src/cmd/restor.c:909-970 | an indirect block written back is read as its addresses |
| `RestorTree.ForestChange` | v7/usr/src/cmd/restor.c:829-851 | a change in one of the trees under a block changes the blocks of the whole by the same amount |
| `RestorPaths.LeafWrite` | v7/usr/src/cmd/restor.c:1061-1070 | writing a data block moves no block of the file |
| `RestorPaths.HungBelow` | v7/usr/src/cmd/restor.c:957-968 | a block hung below a block of the path joins the tree, and the path leads to it |
| `RestorPaths.HungNode` | v7/usr/src/cmd/restor.c:957-968 | every block on any way is found as before, but for the new one, which is found where its path leads with nothing below it |
| `RestorPaths.HungLeaf` | v7/usr/src/cmd/restor.c:957-968 | no other offset is found elsewhere afterwards |
| `RestorPaths.LeavesDistinct` | v7/usr/src/cmd/restor.c:829-851 | two offsets with one data block take the same way |
| `RestorInode.PlacesDistinct` | v7/usr/src/cmd/restor.c:904-970 | distinct logical blocks have distinct physical blocks |
| `RestorInode.PlacesInOrder` | v7/usr/src/cmd/restor.c:926-945 | a later logical block has a later slot of the inode, or the same slot and a larger offset |
| `RestorInode.PlacesAllUsed` | v7/usr/src/cmd/restor.c:926-945 | every offset of every slot is the place of some logical block |
| `RestorInode.PathSpells` | v7/usr/src/cmd/restor.c:954-968 | the indices taken on the way are the digits of the offset to the base 128, highest first |
| `RestorInode.WhereItIs` | v7/usr/src/cmd/restor.c:926-968 | which entry of which indirect block has the address of a logical block, written out for no, one, two and three levels |
| `RestorOrder.HungFirst` | v7/usr/src/cmd/restor.c:957-968 | a block taken for the next offset of a file is the first that tloop will free |
| `RestorOrder.ClearNext` | v7/usr/src/cmd/restor.c:904-970 | when a file has nothing beyond one logical block, it has nothing beyond the next |
| `RestorOrder.DataOrder` | v7/usr/src/cmd/restor.c:1061-1070 | writing data does not change the order in which a file is freed |
| `RestorCount.RootGrown` | v7/usr/src/cmd/restor.c:950-952 | a block taken for an address of the inode is one block more, and the only one |
| `RestorCount.BelowGrown` | v7/usr/src/cmd/restor.c:957-968 | so is a block taken for an entry of an indirect block |
| `RestorCount.DataGrown` | v7/usr/src/cmd/restor.c:1061-1070 | writing data does not change which blocks a file has |
| `RestorFile.Tloop` | v7/usr/src/cmd/restor.c:829-851 | every block of a tree of one, two or three levels is freed once, last entry first and each block after those it leads to, although freed blocks are overwritten with chain data meanwhile |
| `RestorFile.Itrunc` | v7/usr/src/cmd/restor.c:793-827 | every block of a directory or plain file goes to the free list exactly once, the last of the file first; other inodes are left alone; nothing outside the file changes |
| `RestorFile.ModesWithBlocks` | v7/usr/src/cmd/restor.c:801-803 | the modes with blocks are those of directories and plain files |
| `RestorMap.Locate` | v7/usr/src/cmd/restor.c:933-945 | the levels of indirection and the offset, or that the number is too large; `RestorInode.WhereItIs` says where that is |
| `RestorMap.StepBelow` | v7/usr/src/cmd/restor.c:957-968 | one allocation on the way keeps all blocks accounted for once and all other data where it was |
| `RestorMap.Through` | v7/usr/src/cmd/restor.c:954-969 | ends at the block for the offset, having added exactly the blocks that were missing on the way; fails exactly if there are not as many free |
| `RestorMap.Bmap` | v7/usr/src/cmd/restor.c:904-970 | the physical block of the logical one; fails exactly if fewer blocks are free than are missing on the way; free blocks and file blocks together stay the same and apart, but for a direct block that had an address, which is lost; all other logical blocks keep their place and contents; nothing changes for a block already mapped under an indirect address |
| `RestorRun.Rstrfile` | v7/usr/src/cmd/restor.c:1061-1070 | the tape block is read back at its logical place and the earlier ones still are; fails exactly if the blocks on the way to it that the file does not have yet are more than the free ones |
| `RestorRun.Restore` | v7/usr/src/cmd/restor.c:1061-1077 | a whole file with holes reads back as on the tape, and took its blocks off the free list in the order in which itrunc would put them back; succeeds if and only if there are as many free blocks as the tape has data blocks and distinct indirect blocks on the way to them, and takes just so many |
| `RestorRun.FourEach` | v7/usr/src/cmd/restor.c:904-970 | four free blocks for each record are always enough |
| `RestorRun.RestoreThenFree` | v7/usr/src/cmd/restor.c:793-970 | restoring a file and truncating it leaves the free list exactly as it was, order and all, whenever there are enough blocks to restore it |
| `SortQuick.Partition` | v7/usr/src/cmd/sort.c:839-899 | below, equal to and above the pivot, by exchanges only, for every total preorder; the loops end and never compare a marked line |
| `SortQuick.Combine` | v7/usr/src/cmd/sort.c:882-893 | sorting both sides of a marked partition, in either order, sorts the whole |
| `SortQuick.Qsort` | v7/usr/src/cmd/sort.c:822-900 | a sorted permutation with nothing else touched, repeated lines marked exactly under the unique option, and recursion depth d with 2^d <= n + 1 |
| `SortQuick.OneOfEachAtMost` | v7/usr/src/cmd/sort.c:883-884 | no two lines left unmarked are equal |
| `SortQuick.OneOfEachAtLeast` | v7/usr/src/cmd/sort.c:883-884 | every line is equal to one left unmarked |
| `GrepMatch.Longest` | v7/usr/src/cmd/grep.c:393-413 | the longest repetition, found without reading past the terminator |
| `GrepMatch.StarChoices` | v7/usr/src/cmd/grep.c:412-432 | a starred item matches exactly by stopping at some place up to the longest one |
| `GrepMatch.CharFirst` | v7/usr/src/cmd/grep.c:299-307 | the look at the first char rejects only places without a match |
| `GrepMatch.Advance` | v7/usr/src/cmd/grep.c:324-437 | succeeds exactly when the items match some piece of the text that begins here |
| `GrepMatch.Backup` | v7/usr/src/cmd/grep.c:412-432 | trying the places from the longest down, with or without the char shortcut, finds a match if and only if there is one |
| `GrepMatch.Scan` | v7/usr/src/cmd/grep.c:290-313 | a line is accepted exactly when the pattern matches at its start or, without the circumflex, anywhere in it |
| `GrepCompile.CompileClass` | v7/usr/src/cmd/grep.c:194-222 | the loop over a bracketed class computes its members, as `GrepSyntax.MembersRead` and `GrepErrors.ClassScan` characterise them |
| `GrepCompile.Compile` | v7/usr/src/cmd/grep.c:145-260 | the loop computes what a pattern stands for, or its error |
| `GrepCompile.RangeIs` | v7/usr/src/cmd/grep.c:207-212 | a range stands for the chars between its ends, or its first char if they are out of order |
| `GrepCompile.CompileWell` | v7/usr/src/cmd/grep.c:145-260 | no compiled item fits the terminator and stars are only on items for one char |
| `GrepCompile.Grep` | v7/usr/src/cmd/grep.c:145-313 | a compiled pattern accepts a line exactly if it selects it |
| `GrepSyntax.MembersRead` | v7/usr/src/cmd/grep.c:194-222 | chars and ranges written one after the other are read as the union of what they stand for, a dash making a range from the char before it; a range to a char of eight bits, which is negative, has just its first char |
| `GrepSyntax.ClassRead` | v7/usr/src/cmd/grep.c:194-222 | a class written with or without a circumflex compiles to its members or to all the other chars |
| `GrepSyntax.ClassOfChars` | v7/usr/src/cmd/grep.c:194-222 | plain chars in brackets stand for just themselves |
| `GrepSyntax.WrittenCompiles` | v7/usr/src/cmd/grep.c:145-260 | every pattern of chars, dots, dollars, brackets, stars and classes, each spelled in any way the syntax allows (bare where it has no meaning of its own, or escaped), compiles to what it means, with and without a leading circumflex, if and only if it fits the buffer, and is an error otherwise |
| `GrepSyntax.Sizes` | v7/usr/src/cmd/grep.c:145-260 | up to 255 dots and up to 127 chars fit |
| `GrepErrors.ClassScan` | v7/usr/src/cmd/grep.c:194-222 | the scan of a class sets a bit outside the class if and only if a char of eight bits is a member or begins a range; else it reads past the end of the pattern if and only if the class is not closed and ends in an odd number of dashes; else it is an error if and only if the class is not closed; else it ends at the right bracket |
| `GrepErrors.TroubleIsThere` | v7/usr/src/cmd/grep.c:145-260 | for every pattern: one that compiles has no such class and no lone backslash at its end, and one that goes wrong has just what its outcome says |
| `GrepErrors.TextTells` | v7/usr/src/cmd/grep.c:145-260 | for every pattern short enough for the buffer and without escaped parentheses and digits the text alone tells the outcome, each if and only if: reading past the end, a stray bit, an error, or code |
| `GrepErrors.OddBackslashes` | v7/usr/src/cmd/grep.c:224-256 | without classes such a pattern is read past its end if and only if it ends in an odd number of backslashes, and compiles otherwise |
| `GrepErrors.OpenClass` | v7/usr/src/cmd/grep.c:194-222 | a pattern that is one class without an end is read past its end if it ends in an odd number of dashes, and is an error otherwise |
| `GrepErrors.Instances` | v7/usr/src/cmd/grep.c:194-244 | a backslash and two; an open range and one that a dash ends; a char of eight bits as the end of a range, which compiles, and as a member and at the start of a range, which do not |
| `DumpMap.Bis` | v7/usr/src/cmd/dump.c:13-17 | adds one inode to the map |
| `DumpMap.Bic` | v7/usr/src/cmd/dump.c:13-17 | takes one inode out of the map |
| `DumpClosure.ClosedIsExact` | v7/usr/src/cmd/dump.c:149-154 | when no directory outside nodmap lists a member, nodmap has just the marked inodes and the directories above them |
| `DumpClosure.AddOne` | v7/usr/src/cmd/dump.c:285-290 | adding a directory keeps that cleared directories never need to be looked at again |
| `DumpClosure.DropOne` | v7/usr/src/cmd/dump.c:291-293 | clearing a directory loses no ancestor |
| `DumpClosure.Dump.Dsrch` | v7/usr/src/cmd/dump.c:369-398 | whether the block lists a member of nodmap, else whether it lists a member of dirmap |
| `DumpClosure.Dump.Add` | v7/usr/src/cmd/dump.c:277-294 | joins nodmap exactly on a listed member, and otherwise leaves dirmap only with nothing listed that may still join |
| `DumpClosure.Dump.PassMark` | v7/usr/src/cmd/dump.c:257-275 | phase I: clrmap is the allocated inodes, dirmap the directories, and nodmap the allocated inodes whose mtime or ctime is not before the date, exactly |
| `DumpClosure.Dump.PassAdd` | v7/usr/src/cmd/dump.c:175-211 | a pass that adds nothing proves nodmap closed, in spite of the word taken ahead; any other makes it larger |
| `DumpClosure.Dump.Select` | v7/usr/src/cmd/dump.c:149-154 | phase II ends with nodmap exactly the marked inodes and every directory that transitively contains one |
| `Tsort.Sorter.Index` | v7/usr/src/cmd/tsort.c:108-131 | the node of the name, appended once if new |
| `Tsort.Sorter.Present` | v7/usr/src/cmd/tsort.c:84-94 | whether the edge is there |
| `Tsort.Sorter.Enter` | v7/usr/src/cmd/tsort.c:51-65 | one pair more is in the graph, identical and repeated pairs adding no edge |
| `Tsort.Sorter.Anypred` | v7/usr/src/cmd/tsort.c:96-106 | whether an unprinted predecessor is left |
| `Tsort.Sorter.FirstWalk` | v7/usr/src/cmd/tsort.c:170-179 | the walk meets a node it has passed, and never runs off a list |
| `Tsort.Sorter.SecondWalk` | v7/usr/src/cmd/tsort.c:180-190 | the second walk goes once around and returns to where it began |
| `Tsort.Sorter.Findloop` | v7/usr/src/cmd/tsort.c:161-195 | returns a node on a cycle of unprinted nodes: the first that a trail of first unprinted predecessors, from the first unprinted node, meets twice; all marks are taken back |
| `Tsort.Sorter.Print` | v7/usr/src/cmd/tsort.c:66-81 | each node is printed once: the first in the list without an unprinted predecessor, and a node on a cycle of unprinted nodes only when there is none |
| `Tsort.AcyclicOrder` | v7/usr/man/man1/tsort.1:8-12 | without cycles every node is printed after all its predecessors |
| `Tsort.OrderIsOnly` | v7/usr/src/cmd/tsort.c:66-81 | without cycles there is just one such order |
| `Tsort.MentionsInOrder` | v7/usr/src/cmd/tsort.c:108-131 | the list of names is in the order of first mention: more pairs only add names at its end |
| `Tsort.OrderedIsAcyclic` | v7/usr/man/man1/tsort.1:8-12 | and only without cycles can a print order have that property |
| `Tsort.Sorter.Sort` | v7/usr/src/cmd/tsort.c:38-82 | from pairs to names: every name once, nodes numbered by first mention and printed as `Tsort.Sorter.Print` says, and in an order consistent with the pairs if they have no cycle |
| `Rotor.NewPair` | v7/usr/src/cmd/crypt.c:58-62 | pairing two bytes keeps an even number of bytes without a partner |
| `Rotor.Probe` | v7/usr/src/cmd/crypt.c:59-60 | the probing ends, at the first byte without a partner from the one drawn, around the bytes below k |
| `Rotor.Turn` | v7/usr/src/cmd/crypt.c:49-63 | one turn exchanges just the two entries of t1 that the random number names and pairs byte k, if it has no partner, with just the byte that the probing finds; the modulus is never zero |
| `Rotor.Setup` | v7/usr/src/cmd/crypt.c:44-66 | for every stream of random numbers t1 is the product of the exchanges they name, t2 its inverse, and t3 an involution without fixed points, paired as they name |
| `Rotor.EncipherTwice` | v7/usr/src/cmd/crypt.c:82-82 | at every position the machine undoes itself and leaves no byte as it is |
| `Rotor.StreamTwice` | v7/usr/src/cmd/crypt.c:78-90 | running twice from the same offset gives any text back |
| `Rotor.StreamPartners` | v7/usr/src/cmd/crypt.c:78-90 | two bytes encipher to each other at a position if and only if t1, turned by the position and by its quotient by 256, leads them to partners in t3 |
| `Rotor.StreamInBlocks` | v7/usr/src/cmd/ed.c:1630-1657 | a text enciphered in blocks at their offsets is the text enciphered as one stream |
| `Rotor.Crypt` | v7/usr/src/cmd/crypt.c:78-90 | the loop of main is the stream from offset 0 |
| `Rotor.Crblock` | v7/usr/src/cmd/ed.c:1630-1657 | the in-place block at offset n is the stream after n bytes |

## Left out

- All input and output, argument parsing, signals, processes and printing; the options of diff other than -e, and diff -h.
- diff's readhash: any nonzero values of the lines are allowed.
- DiffStream.EdRecreates: text left over after a lone dot has ended its command early is taken to be no command of ed; lines that happen to be commands are not modelled.
- DiffProgram.DiffEd: the same.
- Device errors, swap, physio and the hardware of bio.c, and whether a process that is woken ever gets its buffer.
- dbm: datum values are copied here, so a key that points into the page buffer, and its overwriting by a later call, is not modelled; use of the database after a failed store is not, beyond what `DbmStore.Database.Store` says of it.
- DbmStore.Database.Session: the calls are those whose stores return.
- libmp: operands are at most 32767 digits long where a 16-bit length counts; input and output of numbers, pow and rpow; invert and msqrt are for nonnegative operands.
- MpMult.MultSigned: what two zeros give, which depends on the word below the array.
- MpAdd.Mcmp: magnitudes only; `MpAdd.McmpSigned` is for all numbers.
- MpDivide.SDiv: short division of a zero-length number, for which the code looks at the word below the array, gives zero.
- The sbrk-failure path of malloc, which returns without re-establishing allocp, and the 16-bit width of sizes; calloc.
- Alloc.Allocator.Realloc: a block still in use is not freed by this version of realloc, and stays in use in the model.
- restor: disk errors, block 0 (which a file beyond the triple-indirect limit would overwrite), inodes and directories, and the tape format.
- RestorRun.Rstrfile: logical blocks are below the triple-indirect limit, as block 0 is not modelled.
- sort: reading, merging and the key comparison, which is any total preorder.
- grep: back-references and what the brackets capture, the -y rewriting, the byte layout of the compiled pattern (items are list elements here; their sizes are counted against the buffer), and lines longer than the buffer.
- GrepErrors.TextTells: patterns that could meet another error first, for lack of room or because of brackets, and those with back-references; `GrepErrors.TroubleIsThere` is for all patterns. What compile does after it has gone wrong is not followed.
- dump: the estimate of tape blocks, phases III and IV, and words of the maps as bit patterns (they are sets of bit numbers).
- tsort: names longer than the input buffer, and an odd number of items.
- crypt and ed: the key schedule that makes the random stream, which is arbitrary here.
- The rest of the system, among it fgrep, egrep, find, the shell and the drivers.
