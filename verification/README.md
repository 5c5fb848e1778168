# A verified model of the VlsOs kernel

VlsOs is a small 32-bit x86 kernel written in C. This project models its self-contained
state machines and codecs in Dafny and proves what they do over all inputs and all runs.

| module | models |
|---|---|
| `Machine`, `Memory`, `Strings` | fixed-width integers, the byte copy, C strings |
| `Fat12`, `Chain`, `FileReader`, `Directory`, `Descriptors`, `DiskImage`, `FileSystem` | the FAT12 read path: packed table, cluster chains, read and seek on one descriptor, directory records and 8.3 lookup, runs of all calls on all descriptors, the layout of the disk, and the in-place file system |
| `Scheduler`, `SchedulerRuns`, `ProcessManager` | the process table as a transition system, its runs, and the in-place manager |
| `Checksum` | the Internet checksum against sections 1 and 2 of RFC 1071 |
| `Ring`, `Queues`, `QueueRuns` | message queues: a byte ring as a value, rings on regions of one heap, and runs of all calls on them |
| `Terminal`, `Vga` | the 80x25 screen as a window on unbounded paper, and the in-place driver |
| `DnsName`, `DnsServer` | the domain-name codec of section 3.1 of RFC 1035, and the reply to a query |
| `Numbers`, `Arp` | number printing and parsing, the ARP cache |

Code that the kernel writes as loops over buffers and tables is a method with loops, on
arrays where it works in place; each is proved against a function or relation on values,
and the theorems are about those. Unsigned 32-bit arithmetic is written out modulo
2^32 wherever it can wrap, 8-bit and 12-bit fields are cut explicitly, and little-endian
16-bit accesses are functions on bytes. The disk is a function from sector numbers to 512
bytes with a script that says which reads fail.

Where a natural property does not hold of the code, the model keeps the code and states
exactly when it does:

- An unaligned seek follows one link too many, so a read after it returns the bytes one
  cluster further on (`ReadAfterSeek`, `EveryReadReturns`, `SeekSyncedIff`,
  `UnalignedSeekMisreads`).
- A reader at the end of a chain that is too short for its file stays on the last cluster
  and returns it again (`WholeFileIffCovered`, `ShortChainRereads`).
- In the last 512 bytes of the 32-bit range the read loop's bound check wraps, so that a
  read steps over the file's end (`ChunkIsLeastBound`, `ReadStopsAtEndIff`,
  `WrappingReadRunsPast`), and the seek loop's counter does, so that it does not end on a
  circular chain (`SeekEndsIff`, `SeekLoopsForEver`).
- One 32-bit cluster number passes the table's guard and reads past it
  (`GuardedAccessInside`).
- The scheduler's comments announce priorities; the scan stops at the first ready slot
  (`PrioritiesIgnored`, `LowPriorityFirst`). The process count goes wrong in two cases
  (`ExactIff`, `ExactRunsIff`, `SecondKillMiscounts`, `KernelExitMiscounts`).
- The checksum adds an odd last byte as a low byte (`OddAgreesIffLastZero`,
  `OddByteDisagrees`), its accumulator overflows beyond 65537 words
  (`AgreementBoundIsExact`, `AgreesIff`, `ByteOrderBoundIsExact`), and its callers store it
  without a byte swap (`HostOrderVerifiesIff`, `HostOrderFails`).
- An allocation whose size wraps the pointer is granted (`GrantInsideIff`,
  `WrappedGrantOverlaps`), and a send whose size wraps the sum passes (`GuardedSendFitsIff`,
  `WrappedSendPasses`).
- A DNS label that holds a dot or a NUL does not survive the round trip
  (`EncodeOfDecodeIff`, `DottedLabelSplits`), nor does a dotted name with an empty label, a label of more than
  255 bytes or no room left in the decoder's bound (`DecodeOfEncodeIff`,
  `LongestLabelRefused`, `OverlongLabelIsRoot`). The reply's flags and answer count are
  stored in host byte order (`HeaderMisread`).
- The least 32-bit number prints as a bare sign (`PrintedRightIff`, `RoundTripIff`), and parsing
  overflows on its digits (`NoOverflowIff`, `LeastOverflows`).

## Model

| member | source | states |
|---|---|---|
| `Fat12.GuardedAccessInside` | src/kernel/filesystem.c:76-82 | Of all 32-bit clusters that pass the offset guard, every one but 2863314602 has both bytes of its entry inside the 4608-byte cache; that one, whose offset wraps, reads one byte past it |
| `Fat12.SetThenGet` | src/kernel/filesystem.c:70-106 | After an entry is set it reads back as the low 12 bits written, and every other entry, the neighbour in the shared byte included, is unchanged |
| `Fat12.GetIsTwelveBits` | src/kernel/filesystem.c:70-90 | Without a case split: the entry of cluster c is half-bytes 3c, 3c+1 and 3c+2 of the table, the low one first; behind the cache it is 0xFFF |
| `FileSystem.FindFreeCluster` | src/kernel/filesystem.c:109-116 | The least free cluster in 2..3071, or the end mark exactly when none of them is free |
| `FileSystem.SearchAfterSearch` | src/kernel/filesystem.c:109-116 | A second search finds the same cluster, because the search marks nothing; once it is marked as end of chain the next search finds a greater one or none |
| `FileSystem.AllocationKeepsChain` | src/kernel/filesystem.c:92-116 | Marking a free cluster as end of chain leaves every chain of clusters in use, and every link of it, as it was, and the cluster is on none of them |
| `FileSystem.AllocationKeepsContent` | src/kernel/filesystem.c:92-116 | So every such file keeps its content, and none of its sectors is the new cluster's |
| `Chain.AcyclicChainBound` | src/kernel/filesystem.c:240-247 | A chain without repetition has at most 4089 clusters |
| `Chain.CompleteIsAcyclic` | src/kernel/filesystem.c:240-247 | A chain that reaches an end mark does not come back to any of its clusters |
| `Chain.LinkedForEver` | src/kernel/filesystem.c:279-286 | A chain with as many links as there are cluster numbers is a circle: it has a further link after any number of steps |
| `Chain.StreamIsConcatenation` | src/kernel/filesystem.c:216-248 | Where a chain covers a file, the byte stream the reader follows is the concatenation of the chain's sectors cut to the file's size |
| `Chain.ShortChainRepeats` | src/kernel/filesystem.c:241-247 | Past the end of a complete chain the stream repeats the last cluster, since the reader stays on it |
| `Chain.StreamAgreesIff` | src/kernel/filesystem.c:216-248 | A prefix of a complete chain's stream agrees with the concatenation of its sectors if and only if it is no longer; a longer one is the whole chain followed by the stream of its last cluster |
| `FileReader.ChunkIsLeastBound` | src/kernel/filesystem.c:223-231 | A chunk ends at the file's end at the latest, except exactly when the position is in the last 512 bytes of the 32-bit range and the request reaches its top, where the sum wraps; otherwise it falls short of the request only on a sector boundary or at the file's end |
| `FileReader.ProgressStep` | src/kernel/filesystem.c:216-248 | One turn of the read loop appends the next piece of the stream and rests the descriptor on the right cluster, also where the position wraps |
| `FileReader.ReadTurn` | src/kernel/filesystem.c:216-248 | One turn as the loop takes it: it leaves the loop for want of a link exactly when the read stands on a boundary behind which the chain has ended |
| `FileReader.ReadLength` | src/kernel/filesystem.c:216-250 | On any volume a read without a fault stops at the first of: the request, the limit that the file sets, a sector boundary where the chain has ended |
| `FileReader.ReadLengthOnChain` | src/kernel/filesystem.c:216-250 | On a complete chain its length is the least of the request, what is left of the file and what is left of the chain, past whose end one more sector comes with every call |
| `FileReader.ReadStopsAtEndIff` | src/kernel/filesystem.c:226-231 | Without a fault and with links enough, a read stops at the file's end if and only if the request does not reach the top of the 32-bit range from inside a file that reaches into its last 512 bytes; otherwise it returns all that was asked for, from past the end |
| `FileReader.WrappingReadRunsPast` | src/kernel/filesystem.c:226-236 | A file of 2^32 - 1 bytes whose cluster links to itself: after a seek to 511 bytes before its end a read of 1000 bytes returns 1000 |
| `FileReader.ReadFromSynced` | src/kernel/filesystem.c:207-251 | From a descriptor whose cluster holds its place in the stream, a read returns the stream at that place and leaves such a descriptor; the position is the place in 32 bits |
| `FileReader.ReadsReturnPrefix` | src/kernel/filesystem.c:157-251 | Every run of reads of any sizes after an open, on any volume, with any disk faults and for any file size: the bytes returned, end to end, are a prefix of the stream, and the descriptor stands behind it, its position wrapped to 32 bits |
| `FileReader.ReadsReturnFile` | src/kernel/filesystem.c:157-251 | If a chain covers the file, they are the concatenation of its sectors up to the position; the position passes the size only in files that reach into the last 512 bytes of the 32-bit range |
| `FileReader.ReadIsFull` | src/kernel/filesystem.c:216-250 | Without a fault and without wrapping, a read on a covering chain returns all that was asked for or all that is left |
| `FileReader.ReadUntilEmpty` | src/kernel/filesystem.c:207-251 | On any volume, reading until a faultless read returns nothing yields the stream up to the file's size (in the last 512 bytes of the 32-bit range: up to a length that is the size in 32 bits) |
| `FileReader.WholeFileIffCovered` | src/kernel/filesystem.c:207-251 | On a complete chain, what a run that ends in a faultless empty read has returned agrees with the sectors of the chain if and only if they cover the size; then it is those sectors cut to the size, and otherwise all of them followed by the last one over and over |
| `FileReader.ShortChainRereads` | src/kernel/filesystem.c:240-247 | A file of 1024 bytes on one cluster: the first read of 1024 bytes returns the sector, and so does the second |
| `FileReader.AcyclicFileFits` | src/kernel/filesystem.c:229-236 | A file that an acyclic chain covers has at most 2093568 bytes, so its positions cannot wrap |
| `FileReader.ReadAfterSeek` | src/kernel/filesystem.c:262-289 | On any volume, the read after a seek within the file returns the bytes at the offset if it is a multiple of 512, and the bytes 512 further on if it is not |
| `FileReader.SeekSyncedIff` | src/kernel/filesystem.c:262-288 | On a complete chain, whether or not it covers the file, a seek within the file succeeds exactly up to the start of the last cluster; it leaves the right cluster if and only if the offset is the file's end, is aligned, or does not lie before the last cluster; both conditions together are exact for success with the right cluster |
| `FileReader.EveryReadReturns` | src/kernel/filesystem.c:207-289 | In every interleaving of reads and of seeks to any offsets after an open, on any volume, every read returns the stream from the place to which the calls before it have led, an unaligned seek leading one sector too far |
| `FileReader.InterleavedReads` | src/kernel/filesystem.c:207-289 | If all seeks are aligned, that place is the position, in 32 bits, and the position itself unless the file reaches into the last 512 bytes of the range |
| `Descriptors.SessionIsRun` | src/kernel/filesystem.c:157-289 | In every run of opens, closes, reads and seeks on all 16 descriptors, from a table without open ones, the calls on an open descriptor since it was opened are a run of that descriptor alone, from the entry first found under its name |
| `Descriptors.EveryReadOfEveryFile` | src/kernel/filesystem.c:157-289 | So every read of every such run returns the stream of the entry first found under the name its descriptor was opened with, from the place to which the calls on that descriptor have led |
| `Descriptors.EveryFileReadsAs` | src/kernel/filesystem.c:157-289 | And a file read to the end on any descriptor, between whatever other calls, has been read as the sectors of its complete chain cut to the size if and only if they cover it |
| `Descriptors.CallsAnswer` | src/kernel/filesystem.c:157-289 | Every call of every such run answers by the answers before it: an open takes the least of the 16 descriptors that is not open, and fails only if all are, no live entry shows the name or nothing is mounted; a close or read succeeds exactly on a descriptor opened and not closed since, a seek on no other |
| `Descriptors.QueryAgreesWithOpen` | src/kernel/filesystem.c:365-396 | The query under a name reports the start, size and attributes of the file that an open under it opens |
| `DiskImage.ClustersOnDisk` | src/kernel/filesystem.c:18-23 | The sector read for cluster c >= 2 is 1 + 2*9 + 224*32/512 + (c - 2), and 19 for the two others |
| `DiskImage.LinksOnDisk` | src/kernel/filesystem.c:142-145 | After mounting, the link of a cluster is the 12-bit entry in the nine sectors behind the boot sector |
| `DiskImage.EntriesOnDisk` | src/kernel/filesystem.c:147-150 | After mounting, first cluster, size and attributes of an entry are bytes 26-27, 28-31 and 11 of its 32-byte record from sector 19 on |
| `DiskImage.FileOnDisk` | src/kernel/filesystem.c:119-251 | From the disk to the caller: in every run of calls on a mounted floppy, a file opened and read to the end is, byte for byte, what the sectors of its chain in the table on the disk hold, cut to the size in its record, if they cover it |
| `DiskImage.ReadOnDisk` | src/kernel/filesystem.c:119-289 | And every single read of every run returns the bytes that the chain on the disk holds from the place to which the calls on its descriptor have led |
| `FileSystem.FileTable.Init` | src/kernel/filesystem.c:119-154 | Mounting closes every descriptor and caches the first table and the root directory; it fails exactly if one of the two disk commands does, and does nothing when mounted already |
| `FileReader.UnalignedSeekMisreads` | src/kernel/filesystem.c:279-286 | A two-cluster file whose byte 100 is a one: a seek there succeeds and the read after it returns a two |
| `FileReader.SeekEndsIff` | src/kernel/filesystem.c:277-286 | The seek loop ends if and only if the offset is at most 2^32 - 512 or the chain has fewer links than the offset needs: in the other case the chain is a circle and the 32-bit counter never reaches the offset |
| `FileReader.SeekLoopsForEver` | src/kernel/filesystem.c:277-286 | A file of 2^32 - 1 bytes whose cluster links to itself: a seek to its end never returns |
| `FileSystem.FileTable.SetNext` | src/kernel/filesystem.c:92-106 | In place on the cache, what the packing lemmas are about |
| `FileSystem.FileTable.GetNextCluster` | src/kernel/filesystem.c:415-417 | The entry of any 32-bit cluster but the one that reads past the cache; on 16-bit clusters, the link table that chains are walked on |
| `FileSystem.FileTable.Open` | src/kernel/filesystem.c:157-194 | The open call of those runs: the least free descriptor, set at the start of the first live entry that shows the name, with its attributes and the whole of its name; -1 exactly when not initialised, no descriptor is free or no entry matches, and then nothing changes |
| `FileSystem.FileTable.Close` | src/kernel/filesystem.c:197-204 | The close call of those runs: frees an open descriptor and nothing else |
| `FileSystem.FileTable.ReadChunk` | src/kernel/filesystem.c:217-247 | One turn of the loop: a fault changes nothing; otherwise the chunk is copied from the cluster's sector and the descriptor advanced |
| `FileSystem.FileTable.ReadMore` | src/kernel/filesystem.c:216-248 | The same turn keeps what the loop knows about the bytes and the descriptor |
| `FileSystem.FileTable.ReadOpen` | src/kernel/filesystem.c:207-251 | The loop on an open descriptor: a prefix of the stream, short only by a fault, the file's end or the first place where the chain has ended, for every position and size |
| `FileSystem.FileTable.Read` | src/kernel/filesystem.c:207-251 | The read call of those runs: that prefix, or -1 on a descriptor that is not open; no other descriptor and no byte beyond the result changes |
| `FileSystem.FileTable.Navigate` | src/kernel/filesystem.c:276-288 | Where the loop ends, it follows exactly one link for every 512 bytes or part of them, and fails exactly when the chain has fewer |
| `FileSystem.FileTable.Seek` | src/kernel/filesystem.c:262-289 | The seek call of those runs: sets the position and the navigated cluster even when it fails for want of links; an offset beyond the size changes nothing |
| `Strings.Strcmp` | src/libc/string.c:12-18 | The difference of the two C strings at the first place where they differ, as signed characters; zero exactly on equal strings |
| `Strings.SignedCharIs` | src/libc/string.c:17 | A character is the byte in two's complement |
| `Strings.DifferenceOrders` | src/libc/string.c:12-18 | On ASCII strings the comparison is negative exactly if the first comes before the second in the order of the dictionary |
| `Strings.Strncpy` | src/libc/string.c:36-47 | Exactly n bytes are written: the C string cut to n, or padded with NULs up to n |
| `Strings.FilledHolds` | src/libc/string.c:36-47 | A string shorter than the field is what C reads back from it |
| `Directory.RenderName` | src/kernel/filesystem.c:42-58 | The 13-byte buffer holds the C string shown for the entry |
| `Directory.ShownOfFilled` | src/kernel/filesystem.c:42-58 | The entry with BASE and EXT filled up with spaces shows BASE.EXT, and BASE alone without an extension |
| `Directory.EntryOfPacked` | include/filesystem.h:45-59 | Reading a packed 32-byte record gives back each of its fields |
| `Directory.InfoOfPacked` | src/kernel/filesystem.c:346-350 | Listing and query report attributes, size, first cluster, date and time of the packed record, each under its own name |
| `Directory.FindEntry` | src/kernel/filesystem.c:26-67 | The first live entry before the end mark that shows the name, or -1 exactly when there is none |
| `Directory.ListedAreLive` | src/kernel/filesystem.c:323-330 | The entries listed are exactly the live ones that are not volume labels |
| `Directory.ListedInOrder` | src/kernel/filesystem.c:323-330 | They are listed in the order of the directory, each once |
| `Directory.ListedRecords` | src/kernel/filesystem.c:323-330 | On the bytes of the cached directory: a record is listed exactly if no first byte up to it is 0x00, its own is not 0xE5 and bit 3 of its byte 11 is clear |
| `Directory.ListDir` | src/kernel/filesystem.c:313-356 | Reports the first of these entries, in order, as many as there is room for |
| `Directory.GetFileInfo` | src/kernel/filesystem.c:365-396 | The information of the first match; nothing exactly when no entry matches |
| `Directory.ListedIsFound` | src/kernel/filesystem.c:26-67 | Every name listed is found by lookup, at or before the entry listed, and the query shows the same name |
| `Directory.ShownNameInjective` | src/kernel/filesystem.c:42-58 | Space-padded entries without NULs, and without a dot in the first eight bytes, show the same name only if their 11 name bytes are the same |
| `Directory.LookupInvertsShow` | src/kernel/filesystem.c:26-67 | Where live entries are such and pairwise different, looking up an entry's name returns that entry |
| `Scheduler.AllocatePid` | src/kernel/process.c:74-96 | From any table with the next pid in 1..31: 0 exactly when no slot in 1..31 is unused, otherwise the first unused slot going round from the next pid |
| `Scheduler.NextIsNearest` | src/kernel/process.c:188-220 | The slot chosen is the ready slot nearest after the current one, going round, and the kernel's exactly when none is ready; the fallback to a ready current process is never taken |
| `Scheduler.InitInv` | src/kernel/process.c:16-39 | The state after initialisation satisfies the invariant |
| `SchedulerRuns.StepInv` | src/kernel/process.c:98-255 | Every step keeps the invariant: the current slot is running with 1..10 ticks left, no other slot in 1..31 is running, the kernel's is never ready, used slots hold their index as pid; ended processes 1..31 stay ended, and only a spawn takes an unused slot |
| `SchedulerRuns.Run` | src/kernel/process.c:16-255 | Every state of every run satisfies that invariant |
| `SchedulerRuns.EndedSlotFrozen` | src/kernel/process.c:98-255 | The slot of an ended process 1..31, its exit code included, changes only if it is killed again |
| `SchedulerRuns.EndedForEver` | src/kernel/process.c:145-255 | So over every run without a further kill of it an ended process stays ended with its exit code |
| `SchedulerRuns.EndsOnlyBy` | src/kernel/process.c:145-185 | A process ends exactly by its own exit, with the code it gives, or by a kill, with -1 |
| `SchedulerRuns.KillAnswers` | src/kernel/process.c:161-185 | A kill answers 0 exactly if its target in 1..31 has ended, and otherwise -1 with nothing changed |
| `SchedulerRuns.PrioritiesIgnored` | src/kernel/process.c:192-207 | The slot chosen does not depend on priorities |
| `SchedulerRuns.LowPriorityFirst` | src/kernel/process.c:192-207 | From initialisation: of a process of priority 200 and one of priority 1 spawned after it, the first is dispatched |
| `SchedulerRuns.FindNextTowards` | src/kernel/process.c:189-207 | The slot chosen is a given ready one or comes strictly before it on the way round |
| `SchedulerRuns.StepTowards` | src/kernel/process.c:98-255 | No step but its own kill takes a ready process further from dispatch; every call of the scheduler shortens its cyclic distance and every tick its waiting time |
| `SchedulerRuns.RunsTenTicks` | src/kernel/process.c:223-255 | A process that is dispatched stays on for nine ticks, and the tenth hands over to the ready slot nearest after it, or to the kernel's if none is ready |
| `SchedulerRuns.DispatchedInTime` | src/kernel/process.c:188-255 | In every run a ready process that is not killed is dispatched within 31 calls of the scheduler and within 310 ticks |
| `SchedulerRuns.SpawnedIsDispatched` | src/kernel/process.c:98-255 | So every process that is spawned and not killed gets to run within 31 calls of the scheduler and within 310 ticks of its spawn |
| `SchedulerRuns.SpawnsReturnInOrder` | src/kernel/process.c:74-142 | Over every run from initialisation the spawns return 1, 2, .., 31 in this order and then fail for ever, since no slot is given back |
| `SchedulerRuns.StacksDisjoint` | src/kernel/process.c:116-119 | The stacks of slots in use are pairwise disjoint 4 KB pieces of the stack area |
| `SchedulerRuns.ExactIff` | src/kernel/process.c:145-185 | From an exact process count, a step leaves it exact if and only if it is not a kill of an ended process and not a dispatch of the kernel's slot, for want of a ready one, after the kernel has exited |
| `SchedulerRuns.ExactRunsIff` | src/kernel/process.c:98-255 | Over every run from an exact count, the count is exact at every moment if and only if no step of the run is one of those two |
| `SchedulerRuns.SecondKillMiscounts` | src/kernel/process.c:161-185 | From initialisation: spawn, kill and a second kill of the same process leave the count wrong |
| `SchedulerRuns.KernelExitMiscounts` | src/kernel/process.c:145-158 | From initialisation: an exit of the kernel leaves the count wrong |
| `SchedulerRuns.CleanRunsAreExact` | src/kernel/process.c:16-255 | Over every run in which pid 0 does not exit and no ended process is killed the count is exact and the kernel stays running |
| `ProcessManager.Manager.constructor` | src/kernel/process.c:16-39 | The initial state of the transition system |
| `ProcessManager.Manager.ChoosePid` | src/kernel/process.c:74-96 | The two-part scan is the allocation step |
| `ProcessManager.Manager.Spawn` | src/kernel/process.c:99-142 | In place, the spawn step |
| `ProcessManager.Manager.FindNextSlot` | src/kernel/process.c:188-220 | The scan loop finds the slot of the choice function |
| `ProcessManager.Manager.Schedule` | src/kernel/process.c:223-238 | In place, the schedule step |
| `ProcessManager.Manager.Exit` | src/kernel/process.c:145-158 | In place, the exit step, with its 8-bit count |
| `ProcessManager.Manager.Kill` | src/kernel/process.c:161-185 | In place, the kill step and its result |
| `ProcessManager.Manager.Tick` | src/kernel/process.c:241-255 | In place, the tick step |
| `Checksum.FoldCarries` | src/net/net.c:129-132 | The carry loop ends within two rounds in the representative of the sum modulo 65535 |
| `Checksum.ComputeChecksum` | src/net/net.c:116-135 | The two loops compute the checksum of the wrapped 32-bit accumulator |
| `Checksum.NoOverflow` | src/net/net.c:117-127 | Up to 65537 words the accumulator holds the true sum |
| `Checksum.EvenAgreesWithRfc` | src/net/net.c:116-135 | For even lengths up to 65537 words the result is the complement of the one's-complement sum of the big-endian words, as RFC 1071 defines it |
| `Checksum.OddAgreesIffLastZero` | src/net/net.c:124-127 | For odd lengths it agrees with RFC 1071 if and only if the last byte is zero |
| `Checksum.OddByteDisagrees` | src/net/net.c:124-127 | A single byte 1 gets 0xFFFE, and 0xFEFF by the RFC |
| `Checksum.AgreementBoundIsExact` | src/net/net.c:117-122 | Agreement on every buffer of n words holds if and only if n is at most 65537 |
| `Checksum.AgreesIff` | src/net/net.c:116-135 | For every buffer of any length: it agrees with RFC 1071 if and only if what the accumulator lost by wrapping and what the odd byte lost by its place cancel modulo 65535, and no sum but zero has wrapped to zero |
| `Checksum.SelfVerifies` | src/net/net.c:116-140 | A checksum stored through `net_htons` over a zeroed field at an even offset makes the buffer's checksum zero, for every length: adding it never wraps the accumulator |
| `Checksum.HostOrderVerifiesIff` | src/net/ip.c:93-95 | Stored as the senders store it, without the swap, a buffer of any length verifies if and only if the two bytes of the checksum are equal |
| `Checksum.HostOrderFails` | src/net/ip.c:93-95 | A buffer of a zero field and the word 1: stored without the swap its checksum does not verify |
| `Checksum.PermutationInvariant` | src/net/net.c:120-122 | Reordering the words of a buffer of any even length leaves the checksum unchanged |
| `Checksum.ByteOrderIndependent` | src/net/net.c:116-140 | Up to 65537 words, swapping the bytes of every word swaps the bytes of the checksum |
| `Checksum.ByteOrderIff` | src/net/net.c:116-140 | For every even length, the swap law holds if and only if the two accumulators have lost alike by wrapping and are zero together |
| `Checksum.ByteOrderBoundIsExact` | src/net/net.c:117-122 | The swap law on every buffer of n words holds if and only if n is at most 65537 |
| `Memory.Memcpy` | src/kernel/memory.c:35-44 | The destination with the source written over it, and nothing else changed |
| `Queues.GrantInsideIff` | src/kernel/memory.c:19-27 | A granted region lies inside the heap, and the pointer moves past it, if and only if the 32-bit sum does not wrap |
| `Queues.WrappedGrantOverlaps` | src/kernel/memory.c:19-27 | After a request of 4 GB less 16 bytes the next grant is a region already handed out |
| `Ring.SendAppends` | src/kernel/ipc.c:197-216 | A send is accepted if and only if it fits, and then appends its bytes to the queue's contents; a refused one changes nothing; rear is front + size, wrapped, throughout |
| `Ring.RecvTakes` | src/kernel/ipc.c:231-253 | A receive takes from the front as many bytes as asked for or all there are |
| `Queues.GuardedSendFitsIff` | src/kernel/ipc.c:197-200 | A send that passes the code's guard fits if and only if the 32-bit sum of sizes does not wrap |
| `Queues.WrappedSendPasses` | src/kernel/ipc.c:197-200 | A valid queue of 16 bytes that holds one lets a send of 2^32 - 1 bytes pass |
| `Queues.LocalChange` | src/kernel/ipc.c:185-254 | A change inside one queue's region and indices keeps all regions disjoint and all other queues as they were |
| `Queues.NewQueue` | src/kernel/ipc.c:150-164 | A region taken from the heap pointer is apart from every other, and its queue is empty |
| `Queues.StepGood` | src/kernel/ipc.c:135-254 | Each of the five calls (create, destroy, send, receive, other allocations) keeps the regions of queues in use disjoint, inside the heap and holding valid rings |
| `Queues.StepContents` | src/kernel/ipc.c:135-254 | What each call does to the contents of every queue: creation makes it empty, an accepted send appends, a receive takes from the front, and every other call leaves it as it is |
| `QueueRuns.RunGood` | src/kernel/ipc.c:135-254 | At every moment of every run of the five calls the table is good in that sense |
| `QueueRuns.FirstInFirstOut` | src/kernel/ipc.c:135-254 | For every run of the five calls on one heap, what a queue held and has accepted since its creation is what it has delivered followed by what it holds, byte for byte, across wrap-around and reuse of its slot, whatever the other calls did |
| `QueueRuns.FromNothing` | src/kernel/ipc.c:11-28 | From a table without queues, what a queue in use has accepted since its creation is exactly what it has delivered and what it holds |
| `QueueRuns.StepRefines` | src/kernel/ipc.c:135-254 | Each of the five calls is, with the same answer, the call on bounded queues of bytes: a send is accepted exactly if its bytes fit beside the contents, a receive returns as many bytes from the front as asked for or all, a create takes the least free of 32 slots and fails exactly if there is none or too little heap, a destroy empties its slot |
| `QueueRuns.RunRefines` | src/kernel/ipc.c:135-254 | So every run of the calls on one heap is, answer by answer, a run of bounded queues |
| `QueueRuns.DrainedIsDelivered` | src/kernel/ipc.c:231-253 | After a receive of at least as much as there is, everything the queue has accepted since its creation has been delivered, in order |
| `QueueRuns.GrantsApart` | src/kernel/memory.c:19-27 | Over every run the regions handed out lie inside the heap, one behind the other |
| `Queues.QueueTable.Allocate` | src/kernel/memory.c:19-27 | The grant and the pointer of the allocator for every size; every queue is kept unless the size wraps the pointer |
| `Queues.QueueTable.Create` | src/kernel/ipc.c:135-165 | The least free slot with indices at zero and the size asked for; -1 exactly when no slot is free or the allocator refuses; unless the size wraps the pointer, an empty queue with a region of its own |
| `Queues.QueueTable.Destroy` | src/kernel/ipc.c:168-183 | The destroy call of the runs: a live slot is freed and nothing else changes |
| `Queues.QueueTable.Send` | src/kernel/ipc.c:186-217 | The send call of the runs: all of the data is written into the queue's region, in one part or two, or none of it, and nothing outside the region changes |
| `Queues.QueueTable.Recv` | src/kernel/ipc.c:220-254 | The receive call of the runs: the bytes come out of the queue's region, in one part or two, and only its indices change |
| `Terminal.EntryShows` | src/kernel/vga.c:24-26 | The low byte of a cell is its character, the high byte its colour |
| `Terminal.EntryInjective` | src/kernel/vga.c:24-26 | So a cell determines its character and colour |
| `Terminal.AttributeHalves` | src/kernel/vga.c:112-114 | Of the 16 colours, the low half of an attribute is the foreground and the high half the background |
| `Terminal.StepRefines` | src/kernel/vga.c:46-141 | Every operation on the screen is the operation on the paper, seen through the window of its last 25 rows |
| `Terminal.ScreenShowsPaper` | src/kernel/vga.c:46-141 | Over every sequence of characters, colour changes, cursor moves and clears the screen shows the last 25 rows of the paper, and the cursor stays on the screen |
| `Terminal.AnyScreenShowsPaper` | src/kernel/vga.c:62-141 | The same from any initial screen |
| `Terminal.ScrolledOffStays` | src/kernel/vga.c:46-60 | A row that has left the window never changes again and never comes back |
| `Terminal.ScreenShowsText` | src/kernel/vga.c:71-109 | After a clear and any text without control characters the low bytes of the cells are the text in reading order, less the rows that have scrolled away, the high bytes the current colour, and the cursor stands behind it |
| `Terminal.LineFeed` | src/kernel/vga.c:72-95 | Character 10 goes to the start of the next row; from row 24 every row moves up and row 24 shows blanks in the current colour |
| `Terminal.TabStop` | src/kernel/vga.c:75-89 | Character 9 goes to the next column divisible by eight, or on to the next row, and writes nothing |
| `Terminal.BackspaceUndoes` | src/kernel/vga.c:77-83 | Character 8 after any other takes the cursor back and shows a blank where the character was |
| `Terminal.BackspaceAtStart` | src/kernel/vga.c:77-79 | In column 0 it blanks the cell it stands on and stays |
| `Terminal.PlacedAndColored` | src/kernel/vga.c:112-141 | After a colour change and a move to a row and column, a character shows in that cell, in that foreground and background, and no other cell changes |
| `Terminal.Cleared` | src/kernel/vga.c:100-109 | A clear shows blanks in the current colour everywhere and puts the cursor at the start |
| `Vga.Driver.ScrollDown` | src/kernel/vga.c:46-60 | In place, every row moved up by one and the last one cleared |
| `Vga.Driver.WriteChar` | src/kernel/vga.c:71-97 | In place, the screen's step for a character |
| `Vga.Driver.ClearScreen` | src/kernel/vga.c:100-109 | In place, the screen's clear step |
| `Vga.Driver.SetColor` | src/kernel/vga.c:112-114 | The colour step |
| `Vga.Driver.SetPosition` | src/kernel/vga.c:135-141 | The cursor step; positions off the screen are ignored |
| `Vga.Driver.WriteString` | src/kernel/vga.c:117-122 | The characters before the NUL, one step each |
| `DnsName.ParseOfWire` | src/net/dns.c:11-29 | Labels of 1..255 bytes are read back from their wire form, whatever follows |
| `DnsName.WireOfParse` | src/net/dns.c:11-29 | What was read is the wire form of the labels it yielded |
| `DnsName.EncodeOfDecodeIff` | src/net/dns.c:11-48 | Encoding a decoded name gives back the bytes read, root included, if and only if no label holds a dot or a NUL |
| `DnsName.DottedLabelSplits` | src/net/dns.c:11-48 | The one label "a.b" is encoded again as two |
| `DnsName.ReadLabelsAreProper` | src/net/dns.c:32-48 | If the labels read back from the wire form of a name spell the name, then no label was longer than its length byte can tell |
| `DnsName.DecodeOfEncodeIff` | src/net/dns.c:11-48 | For every name and every output length, decoding the encoded name gives it back if and only if it is the root or has no empty label, all its labels have at most 255 bytes, and it meets the decoder's bound |
| `DnsName.LongestLabelRefused` | src/net/dns.c:22 | A label of 255 bytes, which the 256-byte buffer would hold, is refused for it and accepted for one byte more |
| `DnsName.OverlongLabelIsRoot` | src/net/dns.c:38-43 | A label of 256 bytes is written with length byte zero, and the name decodes as the root |
| `DnsName.WireLength` | src/net/dns.c:32-48 | Encoding writes at most two bytes more than the name has |
| `DnsServer.DecodeQname` | src/net/dns.c:11-29 | Yields the dotted name and the bytes read exactly when the labels are all there and the name fits; otherwise -1 |
| `DnsServer.EncodeQname` | src/net/dns.c:32-48 | Writes the wire form of the labels up to the first empty one, or fails exactly when it does not fit |
| `DnsServer.AnswersIff` | src/net/dns.c:94-114 | A message made of a 12-byte header, a name of proper labels, four bytes of type and class and anything else is answered if and only if its dotted name leaves room in 256 bytes, and is read as those parts |
| `DnsServer.AnsweredAsks` | src/net/dns.c:94-114 | Every message that is answered is made of those parts |
| `DnsServer.ReplyFits` | src/net/dns.c:116-183 | The reply to any query stays within its 512-byte buffer, and an echoed name within 257 bytes |
| `DnsServer.QuestionEchoedIff` | src/net/dns.c:127-136 | The question is echoed byte for byte if and only if no label holds a dot or a NUL |
| `DnsServer.OursIff` | src/net/dns.c:141-143 | This host answers to "vlsos" and "vlsos.local", in whatever case, and to no other name |
| `DnsServer.HeaderStates` | src/net/dns.c:116-180 | As stored, the header holds the query's id and question count, the response mark with code 0 and one answer if the query asks for this host's address, code 3 if it asks for another address, code 4 otherwise |
| `DnsServer.AnswerReads` | src/net/dns.c:127-168 | The body reads as the question, followed, exactly if the query asks for this host's address, by one record of type 1 and class 1 under the same name, to live 300 seconds, whose data is the interface's address |
| `DnsServer.ReadName` | src/net/dns.c:107-111 | The question's name as a C string and the bytes it takes, decoded in a 256-byte buffer that no write leaves; -1 exactly when the name is not all there or does not fit |
| `DnsServer.Reply` | src/net/dns.c:94-183 | A reply is built exactly for readable queries; every write stays inside the buffer; it holds the header with the query's id, flags and counts, the question, and an answer if it asks for the address of this host's name |
| `DnsServer.HeaderMisread` | src/net/dns.c:117-121 | Read in network byte order, the header never has the response bit set nor an error code, and announces 256 answers for one, because the fields are stored without a swap |
| `Numbers.DigitsDenote` | src/libc/string.c:139-151 | In every base 2..36 the digits denote the number and do not begin with a zero |
| `Numbers.DigitsFitScratch` | src/libc/string.c:139-146 | At most 31 digits, so the 33-byte scratch buffer suffices |
| `Numbers.DigitAlphabet` | src/libc/string.c:144 | The digits are those of 0-9a-z, in order |
| `Numbers.TextDenotes` | src/libc/string.c:130-151 | In every base the text has a minus sign exactly for negative numbers, digits that denote the magnitude, and no leading zero |
| `Numbers.Itoa` | src/libc/string.c:124-155 | Prints the sign and digits with a NUL after them; a base out of range changes nothing; C defines every step exactly if the number is not the least, which, its negation wrapping, gets the sign only |
| `Numbers.PrintedRightIff` | src/libc/string.c:130-151 | In every base every 32-bit number but the least is printed right |
| `Numbers.Atoi` | src/libc/string.c:102-121 | For every string: C defines every step of the digit loop and of the sign if and only if the number spelled lies in -INT_MAX..INT_MAX, and then the result is that number; with wrapping sums it is that number in 32 bits |
| `Numbers.ReadOfShape` | src/libc/string.c:102-120 | The number read is that of the digits behind white space and an optional plus or minus sign, up to the first other character |
| `Numbers.SumsFitIff` | src/libc/string.c:115-118 | The sums of the digit loop all stay in range if and only if the number that the digits denote does |
| `Numbers.NoOverflowIff` | src/libc/string.c:106-120 | For every string, no sum of the loop overflows if and only if the number spelled lies in -INT_MAX..INT_MAX |
| `Numbers.LeastOverflows` | src/libc/string.c:115-120 | "-2147483648" spells the least number, and the last sum of the loop overflows on it |
| `Numbers.ReadOfText` | src/libc/string.c:102-155 | Parsing inverts printing in base ten for every number |
| `Numbers.RoundTripIff` | src/libc/string.c:102-155 | Printing a 32-bit number in base ten and parsing it gives it back, without overflow in any sum of the parser, if and only if it is not the least |
| `Numbers.TextInjective` | src/libc/string.c:124-155 | Numbers that print alike in a base are equal |
| `Arp.CacheAnswers` | src/net/arp.c:131-148 | After any sequence of learning, the cache lists the first 32 distinct addresses seen, in that order, each with its latest station |
| `Arp.LookupAnswers` | src/net/arp.c:131-165 | So lookup returns the latest station of each of those and broadcast for every other address |
| `Arp.Cache.Learn` | src/net/arp.c:131-148 | In place, the learning step |
| `Arp.Cache.Lookup` | src/net/arp.c:151-165 | The linear search finds the binding; exactly when there is none it calls for a request for the address and answers broadcast |

## Left out

- Pipes (`src/kernel/ipc.c:30-132`): a ring with one-element copies, which would only repeat the queue's argument in its easiest case.
- Null pointers, and the two allocations of `fs_init`, which are taken to succeed. A disk command for several sectors yields all of them or fails.
- FileReader.ReadIsFull: says nothing about a read that wraps at the top of the 32-bit range; `ReadStopsAtEndIff` says what such a read returns.
- FileSystem.FileTable.Seek: models the calls that return; `SeekEndsIff` says exactly which do not.
- FileSystem.FileTable.Navigate: models the loop where it ends, as `SeekEndsIff` says.
- FileSystem.FileTable.SetNext: requires a cluster that the cache holds, because the code writes without a guard.
- FileSystem.FileTable.GetNextCluster: leaves out the one cluster number of `GuardedAccessInside`, whose second byte lies behind the cache.
- `fs_write`, `fs_delete`, `fs_create` and `fs_free_cluster_chain`: stubs that return -1.
- Register contexts, process names and time stamps in the process table: nothing schedules by them.
- Queues.QueueTable.Create: promises a region of its own only for a size that does not wrap the heap pointer; `GrantInsideIff` says what is granted otherwise. `QueueRuns` is about runs without such a size.
- Ring.SendAppends: requires a size sum that fits in 32 bits; `GuardedSendFitsIff` says what the guard lets pass otherwise.
- Queues.QueueTable.Send: requires a size sum that fits in 32 bits, and does not model the division by zero when nothing is sent to a queue created with size zero.
- Numbers.Itoa: what it writes for the least number holds where signed overflow, which C leaves undefined, wraps; `defined` says that no other number needs this.
- Numbers.Atoi: the result for numbers outside -INT_MAX..INT_MAX holds where signed overflow wraps; `defined` says exactly when nothing overflows.
- DnsServer.Reply: does not model sockets; the query and the address of the interface are parameters.
- The bytes of ARP requests and replies, and the handling of received ARP packets.
- Hardware cursor updates, disk, keyboard, timer and interrupt drivers: port I/O.
- `net_htonl`, the TCP, UDP, ICMP and IP layers, sockets, DHCP, HTTP, the shell and the user interface: header filling, stubs and display.
- Paging and virtual allocation: identity stubs.
