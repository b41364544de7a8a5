# Verified models of the Galio kernel

This project models the algorithmic core of the Galio kernel and its image loader and proves what they promise.
`dafny verify dfyconfig.toml` checks everything.

- **Images.** `Bits`, `BitReader`, `Huffman`, `Deflate`, `DynamicHeader`, `Zlib`, `ZlibCorrect`, `Png`: the inflater
  against the grammar of RFC 1951, in both directions, and the PNG filters of RFC 2083.
- **Time.** `Gregorian` counts days one by one. `TimeConv`, `KernelTime` and `DateText` prove the fast conversion, the
  loops of the kernel clock, and the printed form against that count.
- **Memory.** `Pmem` (frames), `CopyOnWrite`, `Fork`, `AddressSpaces` (paging), `Shmem` (shared memory segments),
  `HeapLayout`, `HeapLive`, `HeapRuns` and `Heap` (the kernel heap). `ImageLoad` decodes images with buffers from
  that heap.
- **Network.** `Checksum`, `Icmp`, `Reassembly`, `ReassemblyRuns`, `ReassemblyDelivery`, `TcpTable`, `TcpRuns`,
  `TcpHash`, `Routes`, `RouteLookup`, `RouteTable`.
- **Processes.** `Lists`, `Scheduling`, `Balancing`, `Waiting`, `Timeouts`, `QueueRuns` on lists; `Chains` and
  `RunQueues` on links.

State that the kernel updates in place is a class whose methods are proved equal to specification functions on values.
The theorems, most of them over whole runs of operations, are about those functions.

Where a promise of the code does not hold for all inputs, a theorem says exactly when it does:

- a Huffman table reads back every symbol if and only if its lengths are not over-subscribed
  (`Huffman.DecodesIffKraft`); three one-bit codes are (`Huffman.ThreeOneBitCodes`);
- an image can be loaded only if both its buffers fit the heap together (`ImageLoad.ImageFitsIff`), which 2000 by 2000
  pixels never do (`ImageLoad.TwoThousandNeverFits`), although width and height are admitted up to 4096;
- a frame's reference count is right as long as it does not pass 255 (`Pmem.RefKeepsOk`, `Pmem.CounterHolds255`);
- several frames in a row are missed when every run that is long enough straddles the search cursor
  (`Pmem.AllocFailsIff`, `Pmem.PairNotFound`);
- a segment size or heap request too close to the largest number rounds up to a small one (`Shmem.PagesHoldSizeIff`,
  `Shmem.LargestSizeNeedsNothing`, `HeapLayout.RoundHoldsIff`, `HeapRuns.RoundWrapsToNothing`), and a reallocation to
  such a size can move a payload into a block that does not hold it (`HeapRuns.OverrunsIff`,
  `HeapRuns.GrowingCanOverrun`); runs keep the heap exactly when that does not happen (`HeapRuns.RunKeepsIff`);
- 31 February is a date the clock accepts (`KernelTime.StampRoundTripIff`, `KernelTime.FebruaryThirtyFirst`), and the
  parser counts years before 1970 from 1970 (`DateText.ParsedIffSince1970`, `DateText.LastDayOf1969`);
- a packet longer than 65535 bytes is sent with a length that is not its own (`Icmp.PacketChecksOut`), and the length of
  an echo request wraps at 32 bits (`Icmp.SendEcho`);
- a deadline on tick zero is no deadline (`Timeouts.SleeperTimesOutIff`, `Timeouts.TickZeroNeverFires`), and a process
  that goes to sleep while it is still in a queue would be in two places (`Waiting.SleepKeepsInvIff`,
  `Timeouts.SleepingTwice`);
- a local TCP port that comes round again can give two connections one tuple (`TcpRuns.ConnectUniqueIff`,
  `TcpRuns.PortsComeRound`);
- routes whose masks have gaps can tie, and then the slot order decides (`RouteLookup.OrderFreeIff`,
  `RouteLookup.GapsCanTie`).

Inputs from outside become parameters: the clock (`now`), the processor that runs and how many are online, whether a
segment could be sent, the address of the interface towards a peer, device identities as numbers.

## Model
| member | source | states |
|---|---|---|
| BitReader.Reader.Read | gui/src/png.c:38-48 | succeeds exactly when at most 24 bits are asked for and that many are left; then the value is those bits read least significant first and the cursor moves past them, otherwise it does not move |
| Huffman.CodeFits | gui/src/png.c:56-81 | within the Kraft bound every canonical code number fits its length |
| Huffman.KraftGivesPrefixFree | gui/src/png.c:56-81 | a Kraft sum of at most one makes the canonical code prefix-free |
| Huffman.PrefixFreeGivesKraft | gui/src/png.c:56-81 | a prefix-free code never has a Kraft sum above one |
| Huffman.PrefixFreeIffKraft | gui/src/png.c:56-81 | for every length vector, the built code is prefix-free if and only if its Kraft sum is at most one |
| Huffman.CodeIsFirstPlusRank | gui/src/png.c:56-81 | the code number of a symbol is the first code of its length plus the number of earlier symbols of that length (section 3.2.2 of RFC 1951) |
| Huffman.ReverseBits | gui/src/png.c:50-54 | the result is the number whose low bits are those of the input in reverse order |
| Huffman.CountLengths | gui/src/png.c:62-65 | the counters hold how often each length occurs |
| Huffman.FirstCodes | gui/src/png.c:66-69 | the 16-bit counters hold the first canonical code of each length, wrapped |
| Huffman.AssignCodes | gui/src/png.c:70-79 | every coded symbol gets its reversed canonical code, in symbol order |
| Huffman.Build | gui/src/png.c:56-81 | fails exactly on too many symbols, an over-long length or no code at all; otherwise the table is the canonical one |
| Huffman.ThreeOneBitCodes | gui/src/png.c:83-95 | three one-bit codes: a length vector the builder accepts and the reader cannot read back |
| Huffman.Read | gui/src/png.c:83-95 | reads bit by bit exactly what the decoding function gives, and stops where it stops |
| Huffman.DecodeSound | gui/src/png.c:83-95 | for every length vector, a decoded symbol is one whose codeword is exactly what was consumed |
| Huffman.DecodeFinds | gui/src/png.c:83-95 | with a Kraft sum of at most one, a stream that starts with the codeword of a symbol yields that symbol and advances by its length |
| Huffman.OverlapMisreads | gui/src/png.c:83-95 | if one codeword starts another, some symbol cannot be read back |
| Huffman.DecodesIffKraft | gui/src/png.c:83-95 | every symbol is read back from its codeword if and only if the Kraft sum is at most one |
| Deflate.CopyMatch | gui/src/png.c:121-123 | a copy writes the periodic extension of the last `distance` bytes, also where it overlaps itself, and nothing else |
| Deflate.InflateMatch | gui/src/png.c:111-123 | one back-reference is read and copied exactly as the step function says, or refused |
| Deflate.InflateBlock | gui/src/png.c:97-128 | the method succeeds exactly when the decoding function does, with its output and end position, and leaves the rest of the buffer alone |
| Deflate.EveryMatchHasToken | gui/src/png.c:97-128 | every length from 3 to 258 with every distance from 1 to 32768 can be written as length and distance symbols |
| Deflate.StepComplete | gui/src/png.c:97-128 | one encoded literal or back-reference is decoded to its effect |
| Deflate.StepSound | gui/src/png.c:97-128 | whatever one step decodes is a literal or back-reference legal under section 3.2.5 of RFC 1951 |
| Deflate.InflateComplete | gui/src/png.c:97-128 | every legal sequence of literals and back-references, encoded and closed by symbol 256, decodes to its LZ77 expansion |
| Deflate.InflateSound | gui/src/png.c:97-128 | whatever decodes is the encoding of some legal sequence, and the output is its expansion |
| DynamicHeader.ReadCodeLengths | gui/src/png.c:162-163 | the code-length lengths come in the fixed order, missing ones zero |
| DynamicHeader.ReadRepeat | gui/src/png.c:172-178 | a repeat count is base plus extra bits, refused when there is no room for it |
| DynamicHeader.ReadAllLengths | gui/src/png.c:165-180 | the loop reads exactly the lengths the reading function gives |
| DynamicHeader.CodeLengthsComplete | gui/src/png.c:156-182 | the permuted code-length lengths are read back exactly |
| DynamicHeader.CodeLengthsSound | gui/src/png.c:156-182 | what is read is what those bits encode |
| DynamicHeader.RunsComplete | gui/src/png.c:156-182 | every legal run-length coding with symbols 16, 17 and 18 is read back as the vector it stands for, runs crossing from literals into distances included |
| DynamicHeader.RunsSound | gui/src/png.c:156-182 | whatever vector is read comes from a legal run-length coding |
| DynamicHeader.ExpandedLengthsSmall | gui/src/png.c:156-182 | no length read is larger than a table may have |
| Zlib.FixedCodesComplete | gui/src/png.c:131-134 | the two fixed codes use their code space exactly |
| Zlib.ComplementaryIffSum | gui/src/png.c:144-152 | the check of a stored length is its one's complement exactly when the two add up to 65535 |
| Zlib.CopyBytes | gui/src/png.c:150-152 | stored bytes are copied as they are |
| Zlib.InflateStored | gui/src/png.c:144-152 | a stored block is decoded or refused exactly as its grammar says |
| Zlib.ReadHeader | gui/src/png.c:156-182 | a dynamic header gives the two tables it describes, or is refused |
| Zlib.InflateCoded | gui/src/png.c:153-183 | a fixed or dynamic block is decoded or refused exactly as its grammar says |
| Zlib.InflateZlib | gui/src/png.c:130-187 | on every byte input the method ends, stays inside input and output, and succeeds exactly when decompression is defined, with its result in the buffer |
| ZlibCorrect.StoredComplete | gui/src/png.c:144-152 | every stored block is decoded to its bytes |
| ZlibCorrect.StoredSound | gui/src/png.c:144-152 | whatever is decoded as a stored block is one |
| ZlibCorrect.HeaderComplete | gui/src/png.c:156-182 | every dynamic header is read as the tables it was written from |
| ZlibCorrect.HeaderSound | gui/src/png.c:156-182 | whatever is read as a dynamic header is one |
| ZlibCorrect.BlockComplete | gui/src/png.c:130-187 | every legal block whose tables are not over-subscribed decodes to its meaning |
| ZlibCorrect.BlockSound | gui/src/png.c:130-187 | whatever decodes as a block is a legal block, and the output is its meaning |
| ZlibCorrect.BlocksComplete | gui/src/png.c:130-187 | every legal sequence of blocks decodes to its meaning |
| ZlibCorrect.BlocksSound | gui/src/png.c:130-187 | whatever decodes is a legal sequence of blocks |
| ZlibCorrect.DecompressComplete | gui/src/png.c:130-187 | every legal stream of stored, fixed and dynamic blocks that fills the output decompresses to its meaning |
| ZlibCorrect.DecompressSound | gui/src/png.c:130-187 | whatever decompresses is a legal stream, and the output is its meaning |
| Png.PaethIsNearest | gui/src/png.c:203-208 | the predictor is the neighbour nearest to left + above - corner, ties going left, then above |
| Png.UnfilterByte | gui/src/png.c:196-210 | one byte is restored from its filtered form and its three neighbours |
| Png.Unfilter | gui/src/png.c:189-214 | fails exactly when some row has an unknown filter type; otherwise the pixels are those whose filtered form was given |
| Png.FilterImageIsFiltered | gui/src/png.c:189-214 | filtering an image with any of the five filters per row gives a filtered form of it (section 6 of RFC 2083) |
| Png.FilteredFormUnique | gui/src/png.c:189-214 | at most one image has a given filtered form |
| Png.BadRowHoldsNothing | gui/src/png.c:189-214 | a row of unknown filter type is the filtered form of no image |
| Png.DecodePixels | gui/src/png.c:259-270 | succeeds exactly when there is memory for both buffers and the compressed data hold an image; then the pixels are that image |
| Png.ImageRoundTrip | gui/src/png.c:130-214 | an image filtered with any filter per row and compressed as any legal blocks is held by the data, and no other image is |
| ImageLoad.LimitNeverReached | gui/src/png.c:257-258 | no image of admitted width and height exceeds the 64 MiB limit on output |
| ImageLoad.ImageFitsIff | gui/src/png.c:257-260 | some sound heap gives both buffers of an image if and only if the two, rounded up and with their headers, are no larger than the heap |
| ImageLoad.TwoThousandNeverFits | gui/src/png.c:257-260 | an image of 2000 by 2000 pixels is refused in every state of the heap |
| ImageLoad.OneComesBack | gui/src/png.c:259-273 | freeing a block just allocated restores the heap |
| ImageLoad.BothComeBack | gui/src/png.c:259-284 | freeing two blocks in the order they were allocated restores the heap |
| ImageLoad.LoadPixels | gui/src/png.c:257-278 | with the heap in place: succeeds exactly when both allocations do and the data hold an image; on failure the layout is as it was, on success a live block holds the pixels byte for byte and its release gives back the layout as it was; every other live payload keeps its contents |
| Gregorian.MonthStarts | kernel/time/timeconv.c:108-118 | the month table from March on in closed form |
| Gregorian.MarchFirst | kernel/time/timeconv.c:64-123 | the closed number of the first of March |
| Gregorian.MarchShift | kernel/time/timeconv.c:64-123 | 400 years on, the first of March is 146097 days later: the shift of the day count by whole cycles is harmless |
| TimeConv.CenturySplit | kernel/time/timeconv.c:94-98 | the division by 146097 gives the century and the day in it |
| TimeConv.YearByHighWord | kernel/time/timeconv.c:100-103 | multiplying and taking high and low word is exact division by 1461, with remainder, on every day of a century |
| TimeConv.MonthByHighHalf | kernel/time/timeconv.c:108-110 | multiplying and taking high and low half is the exact month table on every day of a year |
| TimeConv.PartsBound | kernel/time/timeconv.c:96-106 | a day count taken apart by centuries and years lies within the year it names |
| TimeConv.SplitYear | kernel/time/timeconv.c:94-106 | year and day of the year from a March-based day count |
| TimeConv.SplitDays | kernel/time/timeconv.c:89-122 | date, day of the year and leap rule are exact for every day that a 64-bit second count can reach |
| TimeConv.SplitSeconds | kernel/time/timeconv.c:72-87 | the two loops give the floored day and the second of the day |
| TimeConv.Time64ToTm | kernel/time/timeconv.c:64-123 | for every 64-bit second count and 32-bit offset all fields are those of the calendar counted day by day |
| TimeConv.DescribesUnique | kernel/time/timeconv.c:64-123 | at most one set of fields describes a second |
| KernelTime.SecondsOfStamp | kernel/time.c:60-132 | the second count of the stamp of e is e |
| KernelTime.StampIsCounted | kernel/time.c:60-132 | every valid stamp is the stamp of its second count |
| KernelTime.DateTime.AdvanceOneSecond | kernel/time.c:60-84 | the fields are advanced in place to the tick function of the old fields |
| KernelTime.TickIsOneSecond | kernel/time.c:60-84 | a tick is one second of the calendar if and only if the year does not run out of its 16 bits |
| KernelTime.ToEpoch | kernel/time.c:86-98 | the loops compute the seconds since 1970, reduced to 32 bits; 0 for fields that are not accepted |
| KernelTime.FromEpoch | kernel/time.c:100-132 | for every 32-bit epoch the loops give the stamp that counting gives |
| KernelTime.EpochRoundTrip | kernel/time.c:86-132 | every 32-bit epoch survives conversion to fields and back |
| KernelTime.StampRoundTripIff | kernel/time.c:38-132 | accepted fields survive conversion to an epoch and back if and only if the day exists in its month and 32 bits hold the epoch |
| KernelTime.OverflowingDay | kernel/time.c:38-47 | a day past the end of its month is accepted and taken for a day of the next month |
| KernelTime.FebruaryThirtyFirst | kernel/time.c:38-47 | 31 February is accepted in any year from 1970 on, and never comes back from its epoch |
| KernelTime.TickMatchesEpoch | kernel/time.c:60-132 | ticking the fields of an epoch gives the fields of the next if and only if 32 bits hold the next |
| KernelTime.EpochStored | kernel/time.c:60-132 | the fields of every 32-bit epoch fit the stored widths |
| KernelTime.AgreesWithFast | kernel/time.c:100-132 | the conversion by loops and the fast conversion agree field by field for every 32-bit epoch |
| DateText.FormatDateTime | gui/tools/clock.c:18-42 | for all field values both buffers hold the printed date and time, closed by a zero |
| DateText.FormatDate | gui/tools/clock.c:21-31 | ten characters, year, month and day |
| DateText.FormatTime | gui/tools/clock.c:33-41 | eight characters, hour, minute and second |
| DateText.ReadNumber | kernel/time.c:300-303 | reads exactly n digits as a number or fails |
| DateText.ReadDate | kernel/time.c:300-315 | reads the date part as the grammar says |
| DateText.ReadTime | kernel/time.c:317-335 | reads the optional time part as the grammar says |
| DateText.CountDays | kernel/time.c:343-350 | the day count by looping over years and months |
| DateText.Parse | kernel/time.c:289-352 | the parser computes the value the grammar gives a text, 0 for any other text |
| DateText.ParsePrinted | kernel/time.c:289-352 | every printed date and time, joined by a space or a T, is parsed to its counted seconds modulo 2^32 |
| DateText.ClockTextRoundTrip | kernel/time.c:289-352 | for every 32-bit epoch, parsing what the clock prints gives the epoch back |
| DateText.ParsedIffSince1970 | kernel/time.c:289-352 | a well-formed text is parsed to its calendar time modulo 2^32 if and only if its year is 1970 or later |
| DateText.LastDayOf1969 | kernel/time.c:289-352 | the text 1969-12-31 is accepted and parsed to another time |
| DateText.ParsedIsPrinted | kernel/time.c:289-352 | a text that is accepted begins with the printed form of the fields it was parsed to |
| Pmem.RefKeepsOk | kernel/mm/pmem.c:110-127 | taking a reference keeps bitmap, counters and the used total consistent if and only if the 8-bit counter does not wrap |
| Pmem.DerefKeepsOk | kernel/mm/pmem.c:110-127 | dropping a reference keeps them consistent and frees the frame exactly at the last one |
| Pmem.DerefUndoesRef | kernel/mm/pmem.c:110-127 | dropping the reference just taken restores the tables |
| Pmem.AllocTakesFreeFrames | kernel/mm/pmem.c:217-258 | an allocation takes frames nobody held, one reference each, and nothing else |
| Pmem.AllocFailsIff | kernel/mm/pmem.c:217-258 | it fails if and only if every free run that is long enough straddles the search cursor |
| Pmem.OneFrameFailsIff | kernel/mm/pmem.c:217-258 | a single frame is found whenever one is free |
| Pmem.FreeUndoesAlloc | kernel/mm/pmem.c:217-303 | freeing what was just allocated restores which frames are free |
| Pmem.CounterHolds255 | kernel/mm/pmem.c:110-127 | from any sound state, 255 references to a frame are counted and one more breaks the accounts |
| Pmem.PairNotFound | kernel/mm/pmem.c:217-258 | with two neighbouring frames left, taking one and giving it back leaves a free pair that is not found |
| Pmem.BootWithTwoFrames | kernel/mm/pmem.c:129-215 | starting up with a memory map that offers two frames leads to such a state |
| Pmem.Manager.constructor | kernel/mm/pmem.c:129-215 | frames offered by the memory map are free, those of the kernel, its heap and low memory held once, the rest taken for good |
| Pmem.Manager.Reserve | kernel/mm/pmem.c:197-214 | every frame of a range that nobody holds is held once, and nothing else changes |
| Pmem.Manager.RefFrame | kernel/mm/pmem.c:110-117 | the bitmap, counters and used total change in place to those of `Ref` |
| Pmem.Manager.DerefFrame | kernel/mm/pmem.c:119-127 | the bitmap, counters and used total change in place to those of `Deref`, and stay consistent |
| Pmem.Manager.RunIsFree | kernel/mm/pmem.c:217-258 | whether n frames in a row are free |
| Pmem.Manager.Search | kernel/mm/pmem.c:217-258 | the first free run in an interval |
| Pmem.Manager.Allocate | kernel/mm/pmem.c:217-258 | the tables and cursor become those of `Alloc`; the address is that of the run picked, 0 exactly when none was |
| Pmem.Manager.Free | kernel/mm/pmem.c:298-303 | one reference fewer on each frame of the range |
| CopyOnWrite.MakeWritable | kernel/mm/paging.c:253-322 | a frame with one reference has one mapping, so its entry may become writable |
| CopyOnWrite.PrivateFrame | kernel/mm/paging.c:253-322 | giving one entry a frame of its own keeps the invariant and what all other entries see |
| CopyOnWrite.CowFaultKeepsView | kernel/mm/paging.c:253-322 | a copy-on-write fault changes nothing that any address space reads |
| CopyOnWrite.AllocatePageEffect | kernel/mm/paging.c:198-251 | a new page reads as zeros and is private; without a frame nothing changes |
| CopyOnWrite.FaultEffect | kernel/mm/paging.c:966-1023 | a user write fault keeps the invariant and changes what is read only where a new zero page appears |
| CopyOnWrite.WriteRefines | kernel/mm/paging.c:966-1023 | a user store, with its fault and retry, is a store to a private copy, or changes nothing; a store to a mapped page fails only when no frame is free |
| Fork.CloneEntry | kernel/mm/paging.c:869-964 | sharing one more page extends the deep copy by that page |
| Fork.AddTableEffect | kernel/mm/paging.c:95-111 | a new page table is invisible to every space |
| Fork.CloneSlotsEffect | kernel/mm/paging.c:869-964 | after n slots the child holds exactly the parent's pages of those slots |
| Fork.ForkRefines | kernel/mm/paging.c:869-964 | a fork is a deep copy of the slots it got to; parent and all other spaces read what they read before |
| Fork.CompleteForkIsCopy | kernel/mm/paging.c:869-964 | after a complete fork the child reads exactly the parent's pages |
| AddressSpaces.DoRefines | kernel/mm/paging.c:869-964 | every store and fork is the corresponding step of the machine that copies every page at fork |
| AddressSpaces.StartInv | kernel/mm/paging.c:515-549 | a machine without page tables meets the invariant, and nothing is mapped |
| AddressSpaces.RunIsDeepCopy | kernel/mm/paging.c:869-964 | after any interleaving of stores and forks in any spaces, every space reads what it would had every page been copied; a writable user entry stays the only mapping of its frame and counts cover all mappings |
| AddressSpaces.PageTables.HandleCowFault | kernel/mm/paging.c:253-322 | the tables become those of `CowFault`; every address space reads what it read before |
| AddressSpaces.PageTables.AllocateUserPage | kernel/mm/paging.c:198-251 | the tables and the answer are those of `AllocatePage` |
| AddressSpaces.PageTables.HandlePageFault | kernel/mm/paging.c:966-1023 | for every error code the tables and the answer are those of `Fault` |
| AddressSpaces.PageTables.CloneDirectory | kernel/mm/paging.c:869-964 | the tables are those of `CloneSlots`, stopping where no page table can be had; the spaces read what a deep copy of the slots done gives |
| AddressSpaces.PageTables.CopyTable | kernel/mm/paging.c:914-944 | one table is shared entry by entry |
| Shmem.LargestSizeNeedsNothing | kernel/mm/shmem.c:72-75 | the largest size is rounded to no page at all |
| Shmem.StartInv | kernel/mm/shmem.c:67-70 | the empty tables meet the accounts |
| Shmem.PagesHoldSizeIff | kernel/mm/shmem.c:72-112 | the pages hold the requested size if and only if rounding up does not wrap at 32 bits |
| Shmem.ReleaseEffect | kernel/mm/shmem.c:36-43 | releasing a segment without attachments frees exactly its frames |
| Shmem.GetKeepsInv | kernel/mm/shmem.c:72-112 | creating or finding a segment keeps the accounts; when memory runs out all frames come back |
| Shmem.AttachKeepsInv | kernel/mm/shmem.c:114-149 | an attach keeps the accounts |
| Shmem.DetachEffect | kernel/mm/shmem.c:151-168 | a detach succeeds exactly when a record matches, and frees the frames exactly when it was the last one of a removed segment |
| Shmem.RemoveEffect | kernel/mm/shmem.c:181-189 | removal frees at once without attachments and is put off otherwise |
| Shmem.EveryRunKeepsAccounts | kernel/mm/shmem.c:36-189 | after every run, attachment counters equal the live records, every frame of a segment has one reference more than that, a removed segment exists only while attached, and the used total is the number of frames with references |
| Shmem.Segments.ReleaseSegment | kernel/mm/shmem.c:36-43 | segments and frames become those of `Release` |
| Shmem.Segments.GetSegment | kernel/mm/shmem.c:72-112 | segments, frames and result, error codes included, are those of `Get`; the accounts are kept |
| Shmem.Segments.AllocateFrames | kernel/mm/shmem.c:102-110 | frames one at a time, given back if they run out |
| Shmem.Segments.AttachSegment | kernel/mm/shmem.c:114-149 | records, counters, frames and result are those of `Attach`; the accounts are kept |
| Shmem.Segments.DetachSegment | kernel/mm/shmem.c:151-168 | records, counters, frames and result are those of `Detach`; the accounts are kept |
| Shmem.Segments.RemoveSegment | kernel/mm/shmem.c:181-189 | segments, frames and result are those of `Remove`; the accounts are kept |
| HeapLayout.PayloadsApart | kernel/mm/heap.c:52-144 | payloads are 8-aligned, inside the heap, and meet neither each other nor any header |
| HeapLayout.LiveApart | kernel/mm/heap.c:52-144 | live payloads lie inside the heap and apart from each other |
| HeapLayout.StoreStaysInside | kernel/mm/heap.c:52-144 | a store inside a live payload meets no header and no other live payload |
| HeapLayout.GivenIsNew | kernel/mm/heap.c:95-110 | the block given out was not in use before and holds the rounded size |
| HeapRuns.OverrunsIff | kernel/mm/heap.c:133-144 | a payload moved by a reallocation is larger than its new block if and only if the request is one that rounding wraps to nothing and the first free block, cut down to nothing if it can be cut, is smaller |
| HeapRuns.OverrunHitsHeader | kernel/mm/heap.c:133-144 | the first byte past the end of the new block is the start of the next header, or lies outside the heap |
| HeapRuns.GrowingCanOverrun | kernel/mm/heap.c:133-144 | the run of one small allocation and a request to grow it to the largest number is broken by an overrun |
| HeapRuns.RoundWrapsToNothing | kernel/mm/heap.c:95-97 | the largest request is rounded to nothing |
| HeapLive.LiveBlocksDetermine | kernel/mm/heap.c:52-144 | two sound heaps with the same blocks in use are the same heap, free blocks included: there is no history |
| HeapLive.AllocateAddsOne | kernel/mm/heap.c:95-110 | an allocation adds one block to those in use and changes no other |
| HeapLive.FreedDropsOne | kernel/mm/heap.c:112-121 | freeing takes one block out of use and changes no other |
| HeapLayout.RoundHoldsIff | kernel/mm/heap.c:95-97 | the rounded size is a multiple of eight and holds the request if and only if rounding does not wrap at 64 bits |
| HeapLayout.TakeKeepsOk | kernel/mm/heap.c:65-110 | taking and splitting a block leaves a tiling without free neighbours |
| HeapLayout.TakeKeepsBlocks | kernel/mm/heap.c:65-110 | a live block keeps place and size whatever is allocated |
| HeapLayout.TakenBlock | kernel/mm/heap.c:95-110 | the block given out is in use, large enough, and where the free block was |
| HeapLayout.AllocateFailsIff | kernel/mm/heap.c:95-110 | a request fails if and only if it is for nothing or no free block is large enough |
| HeapLayout.ReleaseKeepsOk | kernel/mm/heap.c:80-121 | freeing a live block leaves a tiling without free neighbours |
| HeapLayout.ReleaseKeepsBlocks | kernel/mm/heap.c:80-121 | a live block keeps place and size when another is freed |
| HeapLayout.AllFreeIsInitial | kernel/mm/heap.c:52-144 | when nothing is in use the heap is one block again |
| HeapRuns.RunKeepsIff | kernel/mm/heap.c:52-144 | a run of allocations, frees and reallocations leaves a heap if and only if no reallocation in it, in the state it meets, copies a payload over the end of its new block |
| HeapRuns.SmallRequestsKeep | kernel/mm/heap.c:52-144 | a run whose reallocations ask for at most 2^64 - 8 bytes always leaves a heap |
| HeapRuns.EveryRunTiles | kernel/mm/heap.c:52-144 | after every run that no such overrun has broken the blocks tile the heap with no two free neighbours, and with nothing in use it is the single initial block |
| HeapRuns.LiveBlocksStay | kernel/mm/heap.c:52-144 | over every run that no overrun has broken, a live block that is not freed or moved keeps its place and size |
| Heap.LinksInverse | kernel/mm/heap.c:52-144 | next and previous are each other's inverses |
| Heap.SplitLinked | kernel/mm/heap.c:65-78 | the links after a split are those of the split layout |
| Heap.MergeLinked | kernel/mm/heap.c:80-93 | the links after a merge are those of the merged layout |
| Heap.MarkLinked | kernel/mm/heap.c:95-121 | marking a block in use or free keeps the links |
| Heap.KernelHeap.constructor | kernel/mm/heap.c:52-63 | one free block covers the 16 MiB heap |
| Heap.KernelHeap.SplitBlock | kernel/mm/heap.c:65-78 | headers are edited in place to those of the split layout |
| Heap.KernelHeap.Absorb | kernel/mm/heap.c:80-93 | headers are edited in place to those of the merged layout |
| Heap.KernelHeap.Coalesce | kernel/mm/heap.c:80-93 | merges a freed block with its free neighbours |
| Heap.CopyWithin | kernel/mm/heap.c:140-141 | the copying loop moves the bytes and changes nothing else |
| Heap.KernelHeap.BlockSize | kernel/mm/heap.c:136-137 | the size in a live block's header |
| Heap.KernelHeap.CopyPayload | kernel/mm/heap.c:140-141 | a payload is copied to another live block; no other live payload changes |
| Heap.KernelHeap.WritePayload | gui/src/png.c:267 | a live block then holds the bytes written; no other live payload changes |
| Heap.KernelHeap.Malloc | kernel/mm/heap.c:95-110 | the layout is that of the run theorems' step; the pointer is the first fit, was not in use before and holds the rounded size, or is null |
| Heap.KernelHeap.Free | kernel/mm/heap.c:112-121 | the layout is that of the run theorems' step |
| Heap.KernelHeap.Realloc | kernel/mm/heap.c:133-144 | the layout is that of the run theorems' step, a moved block keeps its contents and every other live payload its own, unless the copy would overrun the new block; it reports that exactly when the step of the run theorems breaks the heap |
| Checksum.ComputeChecksum | kernel/net/ipv4.c:192-205 | the folding loop computes the one's complement checksum of section 1 of RFC 1071 for every buffer, odd lengths included |
| Checksum.FoldCarries | kernel/net/ipv4.c:192-205 | bringing carries round does not change the reduced sum |
| Checksum.ChecksOutIff | kernel/net/ipv4.c:192-205 | a buffer checks out if and only if its words sum to a positive multiple of 65535 |
| Checksum.PutWordTotal | kernel/net/ipv4.c:192-205 | storing a word changes the sum by the difference |
| Checksum.SealedChecksOut | kernel/net/ipv4.c:265-276 | a buffer with its checksum filled in checks out |
| Checksum.OneWordErrorNoticed | kernel/net/ipv4.c:192-205 | a changed word goes unnoticed if and only if it was exchanged between the two forms of zero |
| Icmp.PacketChecksOut | kernel/net/ipv4.c:265-305 | every header the stack builds has a sound checksum, and passes the receive check with its payload if and only if the length fits the 16-bit field |
| Icmp.EchoAccepted | kernel/net/icmp.c:44-85 | every echo request the stack sends passes the receive path at its destination: address, protocol, fragment and checksum tests, and is taken for a request |
| Icmp.ReplyAccepted | kernel/net/icmp.c:7-42 | a reply passes both checksums, carries identifier, sequence and data unchanged, and goes back to the sender, whose receive path lets it through if the request came through that of the replier |
| Icmp.Seal | kernel/net/icmp.c:30-37 | clears the field and stores the checksum of the stretch |
| Icmp.SendReply | kernel/net/icmp.c:7-42 | builds the reply in a copy of the packet |
| Icmp.RewriteHeader | kernel/net/icmp.c:26-31 | exchanges addresses, renews the time to live and reseals |
| Icmp.RewriteMessage | kernel/net/icmp.c:32-37 | turns the request into a reply and reseals |
| Icmp.SendEcho | kernel/net/icmp.c:66-85 | builds the sealed request, or fails if it does not fit; the 32-bit length wraps for the eight longest payloads, and exactly then the copy runs over the buffer, which is reported |
| Reassembly.WalkIff | kernel/net/ipv4.c:112-127 | the walk from a boundary ends well exactly when everything from there on is covered |
| Reassembly.CompleteIff | kernel/net/ipv4.c:112-127 | the completeness test says yes if and only if the last fragment is known and every byte below the total is covered |
| Reassembly.IsComplete | kernel/net/ipv4.c:112-127 | the loop ends and computes the completeness test |
| Reassembly.StoreOk | kernel/net/ipv4.c:149-190 | storing a fragment keeps a slot's ranges disjoint and non-empty |
| Reassembly.PlaceKeepsInv | kernel/net/ipv4.c:79-110 | finding or clearing a slot keeps at most one live slot per key |
| Reassembly.ReassembleKeepsInv | kernel/net/ipv4.c:149-190 | every step, whatever arrives and whenever, keeps ranges disjoint and non-empty and one slot per key |
| Reassembly.WholeHeaderChecksOut | kernel/net/ipv4.c:129-147 | the header of a reassembled datagram passes the receive check |
| Reassembly.Table.ExpireSlots | kernel/net/ipv4.c:70-77 | slots past their time are given up |
| Reassembly.Table.FindSlot | kernel/net/ipv4.c:79-90 | the slot of a key, if any |
| Reassembly.Table.NewSlot | kernel/net/ipv4.c:92-110 | clears the first unused slot for the key |
| Reassembly.Table.FindOverlap | kernel/net/ipv4.c:161-167 | whether a fragment meets a stored range |
| Reassembly.Table.PlaceFragment | kernel/net/ipv4.c:155-160 | after expiry the slot is that of the key, or a cleared one, as `Place` says |
| Reassembly.Table.AcceptFragment | kernel/net/ipv4.c:161-189 | the fragment is stored, refused, completes its datagram, or gives the slot up, as `Accept` says |
| Reassembly.Table.Input | kernel/net/ipv4.c:149-190 | one fragment changes the slots and yields a datagram exactly as `Reassemble` says; the slots stay sound |
| ReassemblyRuns.StoreHolds | kernel/net/ipv4.c:149-190 | the payload buffer holds, in every stored range, exactly the bytes of the fragment that arrived for it |
| ReassemblyRuns.FinishJustified | kernel/net/ipv4.c:129-147 | a datagram given out is made of fragments of its own key that cover it |
| ReassemblyRuns.StepJustified | kernel/net/ipv4.c:149-190 | one step keeps this of all slots and of what it gives out |
| ReassemblyRuns.RunJustified | kernel/net/ipv4.c:149-190 | over every run, each byte delivered comes from a fragment of that datagram that arrived by then: nothing left in a reused slot is delivered |
| ReassemblyDelivery.NextFits | kernel/net/ipv4.c:149-190 | a piece not yet there meets no stored range and there is room for it |
| ReassemblyDelivery.MissingIsIncomplete | kernel/net/ipv4.c:112-127 | while a piece is missing the slot is not complete |
| ReassemblyDelivery.FullIsDelivered | kernel/net/ipv4.c:129-147 | with all pieces there, the slot gives out exactly the datagram that was cut |
| ReassemblyDelivery.OtherStep | kernel/net/ipv4.c:149-190 | a fragment of another datagram leaves the slot alone unless its time is up |
| ReassemblyDelivery.OurStep | kernel/net/ipv4.c:149-190 | one more piece is kept, or completes the datagram |
| ReassemblyDelivery.DeliveredOnce | kernel/net/ipv4.c:149-190 | every datagram cut into at most 32 disjoint non-empty fragments is delivered exactly once, on the last arrival, with its payload, in every arrival order within the time limit and among any other traffic |
| Scheduling.EnqueueKeepsInv | kernel/process/process.c:112-122 | enqueueing keeps every process in one place |
| Scheduling.RemoveKeepsInv | kernel/process/process.c:87-110 | removing keeps every process in one place |
| Scheduling.DequeueServesLine | kernel/process/process.c:124-137 | a processor takes the head of its line, the line being its lists by priority and arrival, and touches no other line |
| Scheduling.ServedInOrder | kernel/process/process.c:124-137 | repeated service gives the line in order: first come first served within the best priority |
| Balancing.EnqueueOwnLine | kernel/process/process.c:112-122 | a process goes behind its own and better priorities and before the rest, nobody else moves |
| Balancing.MoveEffect | kernel/process/process.c:543-563 | moving takes the head of the source's line to the empty local line |
| Balancing.BalanceEffect | kernel/process/process.c:543-563 | balancing conserves the queued set, moves a process if and only if the local line is empty and another processor has two, and leaves the source at least one |
| Waiting.SleepKeepsInvIff | kernel/process/process.c:149-162 | going to sleep keeps every process in one place if and only if the process is neither queued nor asleep already |
| Waiting.WakeEffect | kernel/process/process.c:164-183 | a woken process leaves its queue and joins the end of its ready list |
| Waiting.WakeOneEffect | kernel/process/process.c:178-183 | the longest waiter is woken and the others keep their order |
| Waiting.WakeAllEffect | kernel/process/process.c:185-188 | the queue is emptied and its members join their ready lists in waiting order |
| Timeouts.PollEffect | kernel/process/process.c:190-222 | a timeout pass wakes exactly the processes whose deadline has passed on the wrapping 32-bit clock, in table order; all others keep their place in their queue |
| Timeouts.SleeperTimesOutIff | kernel/process/process.c:149-222 | a sleeper is woken by a pass if and only if its deadline is not zero and has passed |
| Timeouts.TickZeroNeverFires | kernel/process/process.c:149-222 | a concrete sleeper whose deadline falls on tick zero is woken by no pass |
| Timeouts.SleepingTwice | kernel/process/process.c:149-162 | a concrete process that sleeps twice and is then in its queue twice |
| QueueRuns.StepKeepsInv | kernel/process/process.c:87-222 | each operation keeps every process in one place |
| QueueRuns.EveryRunInOnePlace | kernel/process/process.c:87-222 | after every run, a process is in the list of its processor and priority exactly when it is flagged as queued, in a queue exactly when it waits there, and never in two places |
| Chains.ChainUnique | kernel/process/process.c:87-122 | following the links gives one list only |
| Chains.AppendChained | kernel/process/process.c:112-122 | linking behind the tail appends to one list and leaves the others |
| Chains.RemoveChained | kernel/process/process.c:95-106 | unlinking takes one entry out of one list and leaves the others |
| Chains.FindBefore | kernel/process/process.c:92-108 | the walk stops before the wanted entry |
| Chains.CountChain | kernel/process/process.c:80-83 | the walk counts the list |
| RunQueues.Scheduler.constructor | kernel/process/process.c:139-143 | empty queues over a table of processes |
| RunQueues.Scheduler.ReadyEnqueue | kernel/process/process.c:112-122 | links and tail are edited in place to the specified lists |
| RunQueues.Scheduler.ReadyRemove | kernel/process/process.c:87-110 | links, head and tail are edited in place to the specified lists |
| RunQueues.Scheduler.QueueLength | kernel/process/process.c:78-85 | the length of the processor's line |
| RunQueues.Scheduler.ReadyPeek | kernel/process/process.c:124-130 | the head of the best list |
| RunQueues.Scheduler.ReadyDequeue | kernel/process/process.c:132-137 | takes the head of the line |
| RunQueues.Scheduler.BalanceRunqueues | kernel/process/process.c:543-563 | links, heads and tails are edited in place to the lists of `Balance` |
| RunQueues.Scheduler.SleepUntil | kernel/process/process.c:149-162 | appends the process to the wait queue in place |
| RunQueues.Scheduler.WakeOneTask | kernel/process/process.c:164-183 | links, heads and tails are edited in place to the lists of `WakeOne` |
| RunQueues.Scheduler.WakeAllTasks | kernel/process/process.c:185-188 | the loop ends with the lists of `WakeAll` |
| RunQueues.Scheduler.WakeTask | kernel/process/process.c:207-220 | takes a process out of the middle of its queue and makes it ready |
| RunQueues.Scheduler.PollTimeouts | kernel/process/process.c:190-222 | the pass over the table ends with the lists of `Poll` |
| TcpTable.LookupIffScan | kernel/net/tcp.c:177-188 | the index finds a connection if and only if a scan of all used connections that do not listen would |
| TcpTable.FullScanAgreesIff | kernel/net/tcp.c:177-188 | a scan that includes listeners disagrees only for a segment from address and port zero to a listener bound to that very address |
| TcpTable.OpenKeepsInv | kernel/net/tcp.c:101-112 | opening puts exactly that connection into the bucket of its tuple |
| TcpTable.DropKeepsInv | kernel/net/tcp.c:114-131 | dropping takes exactly that connection out |
| TcpTable.DropUndoesOpen | kernel/net/tcp.c:101-131 | dropping what was just opened restores every bucket |
| TcpRuns.LookupExact | kernel/net/tcp.c:177-188 | with one connection per tuple the index gives the connection itself |
| TcpRuns.ConnectUniqueIff | kernel/net/tcp.c:285-311 | a connect keeps one connection per tuple if and only if no connection has the next local port to the same peer |
| TcpRuns.PortsComeRound | kernel/net/tcp.c:285-311 | a run from the empty table, with one connection that stays and connects that fail until the local ports have come round, that ends with two connections of one tuple |
| TcpRuns.OthersKeepUnique | kernel/net/tcp.c:318-519 | no other operation can bring two connections of one tuple together |
| TcpRuns.EveryRunFinds | kernel/net/tcp.c:94-188 | after every run the buckets hold exactly the used connections that do not listen, a lookup agrees with the scan, and gives the connection itself as long as no local port was given out twice |
| TcpHash.PrependChained | kernel/net/tcp.c:101-112 | linking at the head puts the entry first in its bucket and leaves the others |
| TcpHash.ConnectionTable.constructor | kernel/net/tcp.c:278-283 | an empty table and empty buckets |
| TcpHash.ConnectionTable.Find | kernel/net/tcp.c:177-188 | the walk along the bucket computes the lookup |
| TcpHash.ConnectionTable.FindFree | kernel/net/tcp.c:162-175 | the first free entry |
| TcpHash.ConnectionTable.Insert | kernel/net/tcp.c:101-112 | links and heads are edited in place to the specified buckets |
| TcpHash.ConnectionTable.RemoveEntry | kernel/net/tcp.c:114-131 | links and heads are edited in place to the specified buckets |
| TcpHash.ConnectionTable.StartConnect | kernel/net/tcp.c:285-311 | the table is that of `Connect` on every path, failing ones included; the identifier is that of the entry when all steps succeed, -1 otherwise |
| TcpHash.ConnectionTable.StartListen | kernel/net/tcp.c:326-340 | the table is that of `Listen`: the listener is used but in no bucket; the result is its identifier, -22 or -12 |
| TcpHash.ConnectionTable.FindListener | kernel/net/tcp.c:190-199 | the first listener for an address and port |
| TcpHash.ConnectionTable.Input | kernel/net/tcp.c:424-445 | a passive open: the table is that of `Arrive`, which opens only when no connection has the tuple |
| TcpHash.ConnectionTable.CloseConnection | kernel/net/tcp.c:395-407 | the table is that of `Close`; it succeeds exactly for a used entry |
| TcpHash.ConnectionTable.Poll | kernel/net/tcp.c:502-519 | the pass over the table ends as `PollFrom` says: overdue connections are retried three times, then dropped |
| Routes.ValidIffContiguous | kernel/net/dhcp.c:38-41 | the mask test accepts a mask if and only if every one bit has only ones above it |
| Routes.ContiguousNested | kernel/net/dhcp.c:38-41 | of two contiguous masks one lies within the other |
| Routes.WithinFewer | kernel/net/route.c:54-56 | a mask within another has fewer ones unless they are equal |
| Routes.CountOnes | kernel/net/route.c:54-55 | the shifting loop counts the ones |
| Routes.AddKeepsInv | kernel/net/route.c:15-36 | networks stay masked, (network, mask) pairs unique, and a default route has a gateway |
| Routes.RemoveKeepsInv | kernel/net/route.c:38-47 | removing keeps this |
| Routes.AddRefines | kernel/net/route.c:15-36 | adding is the update of a map of at most sixteen routes, and fails exactly when that does |
| Routes.RemoveRefines | kernel/net/route.c:38-47 | removing is removal from that map, and fails exactly when the key is not in it |
| RouteLookup.LookupLongestIff | kernel/net/route.c:49-64 | with contiguous masks a lookup finds a route if and only if it is the longest match (section 5.2.4.3 of RFC 1812) |
| RouteLookup.LongestOnce | kernel/net/route.c:49-64 | there is at most one longest match |
| RouteLookup.NoMatchIff | kernel/net/route.c:49-64 | a lookup finds nothing if and only if no route covers the destination |
| RouteLookup.OrderFreeIff | kernel/net/route.c:49-64 | for any masks, the result is the same in every order of the slots if and only if no two best routes tie |
| RouteLookup.ContiguousNeverTies | kernel/net/route.c:49-64 | contiguous masks never tie |
| RouteLookup.GapsCanTie | kernel/net/route.c:49-64 | masks with gaps can: a concrete pair |
| RouteTable.RunRefines | kernel/net/route.c:15-47 | over every run the table is the map that the same changes build |
| RouteTable.EveryRunRoutesLongest | kernel/net/route.c:15-64 | after every run with contiguous masks, a lookup gives exactly the longest match of that map with the next hop the map has for it, in whatever order the slots came to stand |
| RouteTable.Table.Clear | kernel/net/route.c:7-13 | the empty map |
| RouteTable.Table.AddRoute | kernel/net/route.c:15-36 | slots and result are those of `Add`; the table stays sound |
| RouteTable.Table.RemoveRoute | kernel/net/route.c:38-47 | slots and result are those of `Remove`; the table stays sound |
| RouteTable.Table.FindRoute | kernel/net/route.c:49-64 | device and next hop of the route found, the destination itself where there is no gateway |

## Left out
- Image files: reading the file and walking the PNG chunks is not modelled, nor are the buffers for the file and its compressed data; `ImageLoad.LoadPixels` starts at the collected compressed data and the header's sizes.
- ImageLoad.ImageFitsIff: counts the two buffers of the decoder, not those for the file and its compressed data, which also come from the heap.
- Png.DecodePixels: takes the outcome of the two allocations as an input; `ImageLoad.LoadPixels` ties it to the heap.
- BitReader.Reader.Read: takes buffers of less than 2^29 bytes, so that the 32-bit bit cursor does not wrap.
- Adler-32: the code does not look at the trailer of a zlib stream, so neither does the model.
- Dynamic blocks: the code accepts up to 32 distance codes where RFC 1951 allows 30, and refuses a block without any distance code; the model follows the code.
- Zlib.InflateZlib: takes less than 2^29 bytes, so that the 32-bit bit cursor does not wrap; the caller caps files at 32 MiB.
- Clock: the global clock, timezone and RTC updates, and the conversion between nanoseconds and timespec.
- Pmem: the bitmap is an array of truth values, so the packing into bytes is not modelled; nor are `pmem_alloc_region` as an operation of its own, `pmem_claim` and the walk of the memory map, whose result is an input.
- Pmem.Manager.Allocate: fails where the source first lets the out-of-memory killer end a process and then fails too.
- Paging: TLB and control registers, kernel mappings, the legacy table alias, the pool of page directories, shared segments inside an address space, and teardown of a space. Page tables are a map from page to entry, not bytes in frames.
- AddressSpaces.PageTables: tables are fields of map and sequence type that the methods reassign, so aliasing of table memory is not captured.
- AddressSpaces.StartInv: the kernel's own page tables are not part of the state, so the first state has none.
- Fork.ForkRefines: asks that no reference count of a user page be at 255 before a fork, where the 8-bit counter would wrap (see `Pmem.RefKeepsOk`).
- Fork.CloneEntry: asks the same of the page it shares.
- Fork.CloneSlotsEffect: asks the same of the parent's pages.
- Fork.CompleteForkIsCopy: asks the same of the parent's pages.
- AddressSpaces.DoRefines: asks the same before a fork.
- AddressSpaces.RunIsDeepCopy: asks the same before every fork of the run.
- AddressSpaces.PageTables.CloneDirectory: starts from an empty child; the creation of its directory, and failing to get one, are left out.
- Shmem.Segments.AttachSegment: takes the address as an input; its choice, the limit on mappings and the mapping of the pages are left out.
- Shmem.Segments.DetachSegment: the unmapping of the pages is left out.
- Shmem: the choice of an address, the mapping records of a process, detaching a whole process, and the status command.
- Heap.KernelHeap.Realloc: promises nothing of the heap after a copy that overruns the new block; payload bytes are kept apart from headers, which `HeapLayout.StoreStaysInside` justifies for every store inside a live payload.
- Heap.KernelHeap.CopyPayload: only takes copies that fit the new block; `Heap.KernelHeap.Realloc` reports the others.
- Heap: `kcalloc`, `vmalloc`, DMA and slab caches.
- Heap.KernelHeap.Free: asks for a live pointer or null, as the kernel does of its callers; what the magic number catches is not modelled.
- Reassembly.Table: slots are a sequence that the methods reassign; packet buffers are byte sequences.
- Icmp.SendReply: buffer allocation, the link header and the sending are left out.
- Icmp.SendEcho: builds the message; handing it to the IP layer and its result are left out, and so is what a copy over the end of the buffer destroys.
- Network: devices, ARP, Ethernet addressing, UDP, and the TCP stream itself (sequence numbers, acknowledgements, checksums, buffers).
- RunQueues.Scheduler.SleepUntil: asks that the process be neither queued nor asleep unless it is a zombie, because a second insertion has no list to describe it (see `Waiting.SleepKeepsInvIff`); the switch to another process that follows is the separate step `QueueRuns.Dispatch`.
- Processes: creation, exit, signals, the idle fallback of the scheduler, context switches, locks.
- TcpHash.ConnectionTable.StartConnect: the waiting loop is not modelled as a loop; giving up is the separate step `TcpRuns.GiveUp`.
- TcpHash.ConnectionTable.CloseConnection: the final segment and the wake-ups of waiting processes are left out.
- TcpHash.ConnectionTable.Poll: the resent segment and the wake-ups of waiting processes are left out.
- Drivers, system calls, file systems, windows and the Drift language.
