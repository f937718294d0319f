# HU packet parser and pool allocator, in Dafny

This project models two parts of the HU firmware library and proves
properties of them.

**The packet framing parser (`lib/hu/hupacket.c`).** A `hup_handle` is fed a
byte stream one byte at a time. While idle it waits for STX (0x02). Inside a
frame it stores the bytes in a 1530-byte receive buffer, and records where
each argument starts in a 64-entry `argv`:

- RS (0x1e) is stored and starts a new argument just past itself.
- EOT (0x04) starts the CRC argument and is not stored.
- ETX (0x03) ends the frame, and `process_data` then does four things:
  - checks the optional CRC-16 trailer (CCITT polynomial 0x1021, preset 0);
  - ends every argument with a NUL in place;
  - splits the header `[id '@'] name [':' seq]`;
  - calls the first command of the registry whose name matches.

The response builders append to `tx_buffer`. They echo the request header, then
add RS-separated strings, decimal integers or hexadecimal integers.

In the model:

- `HupPacket.Handle` is a class. Its buffer is an `array`, and its `argv`,
  `id`, `sequence` and `tx` are fields its methods reassign.
- Each method is proved equal to a function of `HupSpec` on a value snapshot
  (`Rx`), and the properties are lemmas about those functions.
- The handler call is recorded as a `Call`: which registry entry ran, the CRC
  verdict, the argument strings, `id`, `sequence`, and the reply header built
  for it.
- A write the C code makes outside `buffer` or `argv` is not performed.
  Instead, the `overrun` bit records it, and lemmas show the inputs that
  cause it.

**The pool allocator (`lib/hu/palloc.c`).** It is a first-fit, address-ordered,
coalescing free-list allocator over one or more arenas, for a 32-bit `size_t`.
Its constants are word W = 4, header H = 8, and allocated flag 2^31.

- Every arena is a free block followed by a zero-size sentinel header.
- A block's header holds `next` and `flagNsize`. An allocated block has the
  top bit set and `next == NULL`.
- Memory is a map from addresses to headers. It keeps stale headers, since
  the C code never erases them.
- The pool's globals are fields of the class `Palloc.Pool`: `_anchor.next`,
  `_ppool_last`, `_free_size`, `_pool_size`, `_num_alloc` and `_num_free`.
  The pool also has two ghost fields: the set of block headers and the free
  list as a sequence.
- Each method of `Pool` is proved equal to a function of `PallocSpec` or
  `PallocOps` on the snapshot `PoolState`.
- `PallocSpec.Valid` is the pool invariant. It says:
  - the blocks tile their arenas;
  - the free list is the address-ordered chain from the anchor, ending at the
    final sentinel;
  - the nodes carry no flag;
  - `_free_size` is the sum of the sizes of the listed blocks.
- `PallocSpec.Coalesced` says that no free block of positive size is followed
  by another. `PallocCoalesce` proves that the empty pool has this property
  and that palloc, pfree and palloc_init keep it.
- The operations keep this invariant, and the lemmas of `PallocAlloc`,
  `PallocFree`, `PallocInit` and `PallocOps` state what each operation does.

Modules:

- `Options`: the optional value used for pointers that may be NULL.
- `Crc` and `CrcCheckValue`: CRC-16 over 16-bit registers.
- `CText`: C strings, `strchr`, `itoa`, `strtol` and `strtoul`.
- `HupSpec`, `HupPacket`, `HupSteps`, `HupFrames` and `HupRecords`: the
  parser.
- `PallocSpec`, `PallocLists`, `PallocAlloc`, `PallocFree`, `PallocInit`,
  `PallocOps`, `PallocCoalesce` and `Palloc`: the allocator.

The known defects of both files are modelled as written, and the lemmas named
below show each one on a concrete input. The allocator's defects are:

- the sentinel absorbed by `_insert_link`;
- the end address rounded up by `palloc_init`;
- the wrap of `ALIGNED_VALUE` for requests near 2^32;
- the size_t product in `pcalloc`;
- the dead in-place branch of `prealloc`.

## Model

| member | source | states |
|---|---|---|
| HupPacket.Handle.Init | lib/hu/hupacket.c:59-65 | a new handle is idle and valid, its receive buffer is all NUL, `tx` is empty and nothing has overrun |
| HupPacket.Handle.Reset | lib/hu/hupacket.c:108-115 | the handle becomes idle: state -1, no arguments, CRC flag clear, `id` and `sequence` NULL; buffer and `tx` are kept |
| HupPacket.Handle.PushArg | lib/hu/hupacket.c:136 | appends the offset to `argv` while fewer than 64 entries are used; with 64 in use the write past `argv` is flagged as an overrun |
| HupPacket.Handle.ProcessPacket | lib/hu/hupacket.c:117-154 | feeding a byte sequence leaves the handle in the state `HupSpec.Run` gives, returns exactly the handler calls it lists in order, flags an overrun exactly when one byte would write outside the arrays, and keeps the handle valid |
| HupPacket.Handle.ProcessByte | lib/hu/hupacket.c:124-151 | one byte moves the handle as `HupSpec.Receive` says, with the call it makes and its overrun |
| HupPacket.Handle.ProcessData | lib/hu/hupacket.c:79-106 | frame end: the handle after the CRC check, termination, header split and dispatch is `HupSpec.Dispatch`'s, and it is idle |
| HupPacket.Handle.DeliverRecords | lib/hu/hupacket.c:90-105 | given the CRC verdict, terminates, splits, calls and resets as `HupSpec.Deliver` says |
| HupPacket.Handle.TerminateRecords | lib/hu/hupacket.c:90-91 | the buffer gets a NUL just before every argument but the first (`HupSpec.Terminated`), nothing else of the handle changes, and a write to `buffer[-1]` is flagged |
| HupPacket.Handle.SeparateHeaders | lib/hu/hupacket.c:93-94 | the two header cuts give the buffer, `id`, name offset and `sequence` of `HupSpec.SplitHeader` |
| HupPacket.Handle.SeparateHeader | lib/hu/hupacket.c:67-77 | one cut at the first `ch` of the first argument, as `HupSpec.SeparateHeader` |
| HupPacket.Handle.FindCommand | lib/hu/hupacket.c:96-104 | the walk of the registry with `strcmp` returns the first entry equal to the name, or none |
| HupPacket.Handle.ResetTxBuffer | lib/hu/hupacket.c:156-170 | `tx` becomes `[id '@'] name [':' seq]` read from the buffer; nothing else changes |
| HupPacket.Handle.AppendStr | lib/hu/hupacket.c:172-175 | `tx` grows by the C string at the given offset, without bound; nothing else changes |
| HupPacket.Handle.AppendChar | lib/hu/hupacket.c:176-182 | `tx` grows by the character, and by nothing for NUL |
| HupPacket.Handle.AppendInt | lib/hu/hupacket.c:184-190 | `tx` grows by the decimal digits of the value |
| HupPacket.Handle.AppendHex | lib/hu/hupacket.c:192-198 | `tx` grows by the hexadecimal digits of the value's 32-bit pattern |
| HupPacket.Handle.RecordStr | lib/hu/hupacket.c:201-205 | `tx` grows by RS, then the string |
| HupPacket.Handle.RecordInt | lib/hu/hupacket.c:207-211 | `tx` grows by RS, then the decimal digits |
| HupPacket.Handle.RecordHex | lib/hu/hupacket.c:213-217 | `tx` grows by RS, then the hexadecimal digits |
| HupSpec.Receive | lib/hu/hupacket.c:124-151 | one byte keeps the handle valid and the buffer's size, and a handler runs only on ETX, which leaves the handle idle |
| HupSpec.SeparateHeader | lib/hu/hupacket.c:67-77 | without `ch` in the string nothing changes; otherwise the first `ch` becomes NUL and the new string starts just past it |
| HupSpec.SplitHeader | lib/hu/hupacket.c:93-94 | the split keeps the buffer's size; `id`, when set, is the start of the first argument, and the name and `sequence` lie inside the buffer |
| HupSpec.FirstMatch | lib/hu/hupacket.c:96-104 | the index returned names the name, and no earlier entry does; none means no entry does |
| HupSpec.Args | lib/hu/hupacket.c:101 | the argument strings are the C strings at the `argv` offsets |
| HupSpec.Dispatch | lib/hu/hupacket.c:79-106 | frame end leaves the handle idle with the buffer's size, and `tx` untouched when no handler ran |
| HupSpec.Deliver | lib/hu/hupacket.c:90-105 | the same, once the CRC verdict is known |
| HupSpec.Terminated | lib/hu/hupacket.c:90-91 | the terminating loop keeps the buffer's size |
| HupSteps.IdleDiscards | lib/hu/hupacket.c:124-127 | while idle, every byte but STX leaves the handle as it was |
| HupSteps.IdleStarts | lib/hu/hupacket.c:124-129 | STX while idle gives state 0 and one argument at offset 0 |
| HupSteps.StartIsDataInFrame | lib/hu/hupacket.c:145-147 | STX inside a frame is stored as data |
| HupSteps.DataStored | lib/hu/hupacket.c:145-147 | a data byte is stored at `state` and `state` advances while there is room |
| HupSteps.FullDrops | lib/hu/hupacket.c:146-149 | a data byte with the buffer full resets the handle and writes nothing |
| HupSteps.RecordMarkStep | lib/hu/hupacket.c:143-147 | RS adds an argument at `state + 1` and is itself stored |
| HupSteps.CrcMarkStep | lib/hu/hupacket.c:135-138 | EOT adds an argument at `state`, sets the CRC flag and is not stored |
| HupSteps.NoCrcMarkMatches | lib/hu/hupacket.c:81-88 | without EOT the CRC verdict is true |
| HupSteps.EndIdles | lib/hu/hupacket.c:139-142 | ETX always leaves the handle idle, with `tx` untouched when no handler ran |
| HupSteps.UnknownNameCallsNothing | lib/hu/hupacket.c:96-105 | a name no registry entry has runs no handler, leaves `tx` alone and ends idle |
| HupSteps.EndAtCapacityOverruns | lib/hu/hupacket.c:139-140 | ETX with the buffer full writes one past the end |
| HupSteps.FullFrameOverruns | lib/hu/hupacket.c:139-147 | a frame whose data fills the buffer exactly reaches that write |
| HupSteps.MarkWithArgvFullOverruns | lib/hu/hupacket.c:135-144 | RS or EOT with 64 arguments writes past `argv` |
| HupSteps.SixtyFifthRecordOverruns | lib/hu/hupacket.c:143-144 | a frame of 64 records followed by one more RS reaches that write |
| HupSteps.DeliverOverruns | lib/hu/hupacket.c:90-91 | an argument other than the first at offset 0 makes the loop write `buffer[-1]` |
| HupSteps.EmptyCrcFrameOverruns | lib/hu/hupacket.c:128-141 | STX EOT ETX from idle reaches that write |
| HupSteps.CrcCoversTrailer | lib/hu/hupacket.c:84 | changing one byte of the CRC digits changes the computed CRC: the check covers its own trailer |
| HupSteps.AppendUnbounded | lib/hu/hupacket.c:174 | a NUL-free string is appended whole whatever the length of `tx`, so a result of 1530 or more characters leaves no room for its NUL in `tx_buffer` |
| HupSteps.AppendOverrunsTx | lib/hu/hupacket.c:174 | 40 characters appended to 1500 give a 1540-character string, past the 1530 bytes of `tx_buffer` |
| HupSteps.ClobberedRecord | lib/hu/hupacket.c:90-91 | after EOT directly follows a record, the loop's NUL overwrites that record's last character |
| HupSteps.CrcMarkClobbersLastByte | lib/hu/hupacket.c:135-136 | the frame STX "ab" EOT "0" ETX calls at most one handler, exactly when a command is named "a", with arguments "a" and "0" |
| HupFrames.RunAppend | lib/hu/hupacket.c:119-122 | feeding `a` then `b` is feeding `a + b`: same handle, calls concatenated, overruns or-ed |
| HupFrames.FeedData | lib/hu/hupacket.c:145-147 | data bytes that fit are stored one after the other, with no call and no overrun |
| HupFrames.FeedRecords | lib/hu/hupacket.c:124-147 | STX and up to 64 RS-joined plain records that fit put the records at the front of the buffer with `argv` at their starts |
| HupFrames.EndRun | lib/hu/hupacket.c:139-141 | ETX after such records makes exactly the expected call, ends idle without overrun, and echoes the header in `tx` when a handler ran |
| HupFrames.FrameRoundTrip | lib/hu/hupacket.c:117-154 | a whole frame without CRC, built from a header and plain records, calls the matching handler once with the name, the other records as sent, `id`, `sequence` and the echoed header; otherwise nothing runs |
| HupRecords.TerminateAll | lib/hu/hupacket.c:90-91 | the terminating loop turns the RS-joined records into NUL-joined ones, leaving the rest of the buffer alone |
| HupRecords.SplitHead | lib/hu/hupacket.c:93-94 | a header written as `[id '@'] name [':' seq]` splits into `id` at 0, the name, and `sequence` when present, with each mark replaced by NUL |
| HupRecords.EchoHead | lib/hu/hupacket.c:156-170 | the reply header built from the split is the request header exactly as sent |
| HupRecords.FrameArgs | lib/hu/hupacket.c:90-94 | after termination and the split, the handler reads the name and then every other record as sent |
| HupRecords.DeliverRequest | lib/hu/hupacket.c:79-106 | at ETX of such a frame the call is the expected one, with no overrun, the handle ends idle and `tx` holds the echoed header exactly when a handler ran |
| HupRecords.NoTerminateOverrun | lib/hu/hupacket.c:90-91 | records joined by RS never make the loop write `buffer[-1]` |
| Crc.CrcAppend | lib/hu/hupacket.c:84 | the CRC of `a + b` is the CRC of `b` seeded with the CRC of `a` |
| Crc.ShiftLeftValue | lib/hu/hupacket.c:84 | the register's shift is the `uint16_t` shift: the value doubles and loses bit 15 |
| Crc.TopBitValue | lib/hu/hupacket.c:84 | the bit that selects the feedback is bit 15 of the 16-bit value |
| Crc.FeedbackValue | lib/hu/hupacket.c:84 | the feedback is the number 0x1021 exactly when bit 15 is set, and 0 otherwise |
| Crc.CrcDetectsByteError | lib/hu/hupacket.c:84-87 | changing any one byte changes the 16-bit value compared at line 86 |
| CrcCheckValue.CheckValue | lib/hu/hupacket.c:84 | the CRC of "123456789" from preset 0 is 0x31C3, the XMODEM check value |
| CText.CStr | lib/hu/hupacket.c:174 | the C string at an offset holds no NUL, is a prefix of the rest, and is followed by NUL or the end |
| CText.StrChr | lib/hu/hupacket.c:70 | the offset found holds `ch` inside the string with no earlier `ch`; none means the string lacks `ch` |
| CText.StrToUL | lib/hu/hupacket.c:85 | the value read is below 2^32 |
| CText.StrToLDigits | lib/hu/hupacket.c:85 | a plain run of digits reads as its value |
| CText.DecimalRoundTrip | lib/hu/hupacket.c:187 | reading back the decimal digits itoa writes gives the 32-bit value |
| CText.HexRoundTrip | lib/hu/hupacket.c:195 | reading back the hexadecimal digits gives the value modulo 2^32 |
| PallocSpec.Aligned | lib/hu/palloc.c:14-15 | a multiple of W below 2^32, at least the input and within W of it unless it wraps |
| PallocSpec.Add | lib/hu/palloc.c:76 | size_t addition: below 2^32, exact when it does not wrap |
| PallocSpec.Sub | lib/hu/palloc.c:178 | size_t subtraction: exact when it does not wrap, 2^32 above otherwise |
| PallocSpec.Mul | lib/hu/palloc.c:106 | size_t multiplication: below 2^32, exact when it does not wrap |
| PallocSpec.Sentinel | lib/hu/palloc.c:206-218 | the sentinel address `start + block_size - H` computed in size_t: below 2^32, exact when the sum does not wrap, and never the arena's own start for a span above H |
| PallocSpec.FitIndex | lib/hu/palloc.c:51-55 | the walk stops at the first node whose size word reaches the request, or at the final node, and passes only smaller ones |
| PallocLists.FreeBound | lib/hu/palloc.c:72 | in a valid pool `_free_size` is below the allocated flag |
| PallocAlloc.RoundedBounds | lib/hu/palloc.c:43 | a request that does not wrap is rounded to a multiple of W holding the request and the header, less than W over |
| PallocAlloc.RoundedWraps | lib/hu/palloc.c:43 | a request within 11 bytes of 2^32 rounds to at most one header, smaller than the request |
| PallocAlloc.AllocNull | lib/hu/palloc.c:38-58 | palloc returns NULL exactly when no arena is registered, the request is 0, the rounded size has the flag set, or no node before the final sentinel fits, and then changes nothing |
| PallocAlloc.AllocNullSame | lib/hu/palloc.c:57-58 | a NULL result leaves the pool as it was |
| PallocAlloc.AllocTakes | lib/hu/palloc.c:49-77 | a successful palloc takes the node the walk found, which is not the final sentinel and is large enough, and returns its address plus H |
| PallocAlloc.AllocFirstFit | lib/hu/palloc.c:49-70 | first fit: the node taken is the first in address order large enough; the remainder takes its place when more than 2·H is left, otherwise it leaves the list |
| PallocAlloc.AllocList | lib/hu/palloc.c:61-69 | the free list afterwards: the node replaced by the remainder at `plink + size`, or removed |
| PallocAlloc.AllocBlock | lib/hu/palloc.c:60-76 | the block handed out is flagged with `next == NULL`, at the rounded size when split and whole otherwise, `_free_size` falls by its size and `_num_alloc` counts it |
| PallocAlloc.AllocKeepsLive | lib/hu/palloc.c:60-76 | every block allocated before is untouched and is not the one returned |
| PallocAlloc.AllocValid | lib/hu/palloc.c:38-78 | palloc keeps the pool valid for a request that does not wrap |
| PallocAlloc.TakeValid | lib/hu/palloc.c:60-77 | unlinking, splitting and flagging a fitting node keeps the pool valid |
| PallocFree.FreeIgnores | lib/hu/palloc.c:84-92 | pfree of NULL or of a header without the flag changes nothing |
| PallocFree.FreeReleases | lib/hu/palloc.c:90-97 | pfree of a flagged header clears it, counts it free and hands it to `_insert_link` |
| PallocFree.FreeValid | lib/hu/palloc.c:80-101 | pfree keeps the pool valid |
| PallocFree.FreeLive | lib/hu/palloc.c:92-97 | freeing a live block clears its flag, forgets it among the live blocks and leaves the others alone, raises `_free_size` by its size and counts the call |
| PallocFree.FreeChanges | lib/hu/palloc.c:84-99 | pfree changes the pool exactly when the header carries the flag |
| PallocFree.FreeTwice | lib/hu/palloc.c:84-99 | a second pfree of the same pointer changes nothing |
| PallocFree.ReleaseLive | lib/hu/palloc.c:94-97 | releasing a live block: every other live block keeps its header, and no new live block appears |
| PallocCoalesce.EmptyCoalesced | lib/hu/palloc.c:25-32 | the static initial pool has no two free neighbours |
| PallocCoalesce.AllocCoalesced | lib/hu/palloc.c:38-78 | palloc keeps every free block of positive size followed by an allocated or zero-size header, for a request that does not wrap |
| PallocCoalesce.TookCoalesced | lib/hu/palloc.c:60-77 | splitting a free block leaves its rest followed by what followed the whole block, so no two free blocks become neighbours |
| PallocCoalesce.FreeCoalesced | lib/hu/palloc.c:80-101 | pfree keeps the pool coalesced: the freed block merges with a free neighbour on either side |
| PallocCoalesce.FreedCoalesced | lib/hu/palloc.c:247-271 | `_insert_link` merges the block with a free predecessor that ends at it and a free successor it ends at, so the merged block is followed by no free block |
| PallocCoalesce.InitCoalesced | lib/hu/palloc.c:187-231 | palloc_init keeps the pool coalesced for a placeable arena: the new block is followed by its own sentinel |
| PallocCoalesce.GrownCoalesced | lib/hu/palloc.c:204-229 | linking in an arena apart from every block leaves each old free block followed as before |
| PallocFree.FreedDropsSentinel | lib/hu/palloc.c:257-262 | a lower arena's zero-size sentinel right after the freed block is merged away: it leaves the free list |
| PallocInit.EmptyValid | lib/hu/palloc.c:25-32 | the static initial pool is valid, with no block and an empty list |
| PallocInit.InitChanges | lib/hu/palloc.c:193-224 | palloc_init changes the pool exactly when the span exceeds 2·H and the start is not already a node, and then grows it by the arena |
| PallocInit.InitGrows | lib/hu/palloc.c:193-229 | an arena not starting at a node is linked in at its place in address order, as a block of span−H and a sentinel at the size_t address `start + span − H`, with the totals raised |
| PallocInit.InitAppends | lib/hu/palloc.c:204-212 | an arena above every node becomes the last one, `_ppool_last` moving to its size_t-wrapped sentinel |
| PallocInit.InitInserts | lib/hu/palloc.c:215-219 | an arena below a node is linked in before it, its size_t-wrapped sentinel pointing at that node |
| PallocInit.InitFirst | lib/hu/palloc.c:204-212 | the first arena of an empty pool is one free block and its size_t-wrapped sentinel, the whole list |
| PallocInit.InitValid | lib/hu/palloc.c:187-231 | palloc_init keeps the pool valid for an arena placed below the flag and apart from the existing blocks |
| PallocInit.InitRoundsEndUp | lib/hu/palloc.c:189-191 | rounding the end up puts the sentinel's header past the given end |
| PallocInit.InitWrapsBackwards | lib/hu/palloc.c:191-218 | an end below the start wraps to an arena of almost 4 GiB whose size word carries the flag, and whose sentinel wraps round to 0xFF8, below the arena |
| PallocOps.CallocValid | lib/hu/palloc.c:103-116 | pcalloc keeps the pool valid when the product does not wrap in rounding |
| PallocOps.CallocBlock | lib/hu/palloc.c:103-116 | a block pcalloc hands out is live and holds the `num * size` bytes after its header; NULL changes nothing |
| PallocOps.CallocWraps | lib/hu/palloc.c:106 | the product wraps: pcalloc(0x10000, 0x10001) is palloc(0x10000) |
| PallocOps.CallocWrapsToZero | lib/hu/palloc.c:106-108 | a product that wraps to 0 gives NULL |
| PallocOps.ReallocGuardDead | lib/hu/palloc.c:130 | a live block's `next` is NULL, so the in-place branch is never taken |
| PallocOps.ReallocNull | lib/hu/palloc.c:120-123 | prealloc(NULL, n) is palloc(n) |
| PallocOps.ReallocKeepsShort | lib/hu/palloc.c:127-128 | a block whose payload is shorter than n but whose size with header is not is returned unchanged |
| PallocOps.ReallocMoves | lib/hu/palloc.c:146-152 | a block smaller than n moves to a new block that palloc returns, and the old one is freed when that succeeds |
| PallocOps.ReallocValid | lib/hu/palloc.c:118-156 | prealloc keeps the pool valid |
| PallocOps.Largest | lib/hu/palloc.c:168-169 | the largest size word among the nodes, 0 for none |
| PallocOps.Smallest | lib/hu/palloc.c:170-171 | the smallest positive size word among the nodes, all ones for none |
| PallocOps.Extremes | lib/hu/palloc.c:174-181 | the reported largest and smallest, less H, are the extremes of the listed sizes |
| PallocOps.StatsValid | lib/hu/palloc.c:158-185 | palloc_stats returns the sum of the listed sizes and counts every node |
| PallocOps.StatsEmpty | lib/hu/palloc.c:176-181 | with no arena both extremes wrap to 0xFFFFFFF8 |
| Palloc.Pool.constructor | lib/hu/palloc.c:25-32 | the static initial pool, valid |
| Palloc.Pool.SetLink | lib/hu/palloc.c:241-245 | one header rewritten with a size and a next |
| Palloc.Pool.SetBlock | lib/hu/palloc.c:233-239 | a block header and its sentinel written, and the given link pointed at the block |
| Palloc.Pool.InsertLink | lib/hu/palloc.c:247-271 | the block is put back as `PallocSpec.InsertLink` says |
| Palloc.Pool.FindPrev | lib/hu/palloc.c:251 | the walk stops at the link before the first node at or above the block |
| Palloc.Pool.Splice | lib/hu/palloc.c:252-270 | merging with the predecessor and the successor, and linking in, as `PallocSpec.InsertLink` says |
| Palloc.Pool.MergeBack | lib/hu/palloc.c:252-256 | the predecessor absorbs the block when it ends at it |
| Palloc.Pool.MergeForth | lib/hu/palloc.c:257-267 | the block absorbs its successor unless that is `_ppool_last` |
| Palloc.Pool.Palloc | lib/hu/palloc.c:38-78 | the new pool and the pointer are `PallocSpec.Alloc`'s, and the pool stays valid for a request that does not wrap |
| Palloc.Pool.TakeFit | lib/hu/palloc.c:49-77 | the first fit is taken, or NULL at the final sentinel |
| Palloc.Pool.FindFit | lib/hu/palloc.c:49-55 | the walk stops at `FitIndex`, with the link before it |
| Palloc.Pool.TakeNode | lib/hu/palloc.c:60-77 | the node is unlinked, split and flagged as `PallocSpec.Take` says |
| Palloc.Pool.SplitNode | lib/hu/palloc.c:63-69 | the rest of the node becomes a node of its own in its place |
| Palloc.Pool.FlagNode | lib/hu/palloc.c:72-76 | the block leaves the free size, is flagged and unlinked, and is counted |
| Palloc.Pool.Pfree | lib/hu/palloc.c:80-101 | the new pool is `PallocSpec.Free`'s, and it stays valid |
| Palloc.Pool.ReleaseBlock | lib/hu/palloc.c:94-97 | clear the flag, count the size free, reinsert, count the call |
| Palloc.Pool.Pcalloc | lib/hu/palloc.c:103-116 | the new pool and pointer are `PallocOps.Calloc`'s, valid when the product does not wrap in rounding |
| Palloc.Pool.Prealloc | lib/hu/palloc.c:118-156 | the new pool and pointer are `PallocOps.Realloc`'s, and the pool stays valid |
| Palloc.Pool.PallocStats | lib/hu/palloc.c:158-185 | reports `PallocOps.StatsOf`: free total, largest and smallest less H, node count |
| Palloc.Pool.WalkStats | lib/hu/palloc.c:160-173 | one pass counts every node and finds the largest and the smallest positive size |
| Palloc.Pool.PallocInit | lib/hu/palloc.c:187-231 | the new pool is `PallocSpec.Init`'s, sentinel address computed in size_t, valid when the arena is placeable |
| Palloc.Pool.FindArena | lib/hu/palloc.c:195-202 | the first node at or above the start, and the last link before it that is not the final node |
| Palloc.Pool.AddArena | lib/hu/palloc.c:204-229 | append, insert or ignore the arena as `PallocSpec.InitAt` says, the sentinel at `PallocSpec.Sentinel` |
| Palloc.Pool.AppendNew | lib/hu/palloc.c:206-211 | the arena becomes the last, after `_ppool_last`, which moves to the size_t-wrapped sentinel |
| Palloc.Pool.InsertNew | lib/hu/palloc.c:215-219 | the arena is linked in before the node found, through its size_t-wrapped sentinel |
| Palloc.Pool.GrowBy | lib/hu/palloc.c:225-229 | `_free_size` and `_pool_size` grow by the arena, in size_t |

## Left out

- The bodies of the command handlers, `send` and `user_data` are left out. A handler call is recorded as a `Call` value and the handler is not run.
- `hupacket_ack_response` and `hupacket_send_buffer` are not part of this model. No file here defines them.
- `tx_buffer`'s capacity is not modelled. `strcat` has no bound, so `tx` is an unbounded sequence, and `HupSteps.AppendUnbounded` shows the missing bound.
- Out-of-range writes are not performed. These are `buffer[1530]` at ETX, `argv[64]` and `buffer[-1]`. The model sets `overrun` and leaves the rest of the state as it would be had the write landed elsewhere.
- HupSpec.Push: with 64 arguments in use the model drops the new entry. The C code instead writes past `argv` into whatever follows it in the handle.
- `crc16()` of the Zephyr library is not shown. `Crc.Crc16` is the bitwise CRC-16 with polynomial 0x1021, MSB first, preset 0, which is the function the call computes.
- `CText.StrToL` and `CText.StrToUL` do not model the overflow clamp of `strtol`/`strtoul`. `CText.IToA` states what `itoa` writes, not how.
- `HupFrames.FrameRoundTrip` covers frames without a CRC trailer whose header fields hold neither mark. For frames with a trailer, the model covers the per-byte steps and the CRC defects.
- The registry is a sequence of names. The linker-section mechanism behind `STRUCT_SECTION_FOREACH` is not modelled.
- Concurrency is left out. Neither file locks anything, and the model is sequential.
- Payload bytes are not modelled. The pool holds headers only, so the `memset` of `pcalloc` and the `memcpy` of `prealloc` leave no trace. This includes the copy at line 149, which reads `nbytes` from a smaller old block.
- Palloc.Pool.PallocInit (and PallocSpec.Init): validity is kept only for arenas that lie below 2^31, do not wrap past 2^32, and do not overlap an existing block, or start at a node (`PallocInit.Placeable`). The C code does not check any of these.
- Palloc.Pool.Palloc: validity is kept only for requests below 2^32 − 11. Above that, `ALIGNED_VALUE(size + H)` wraps to a block smaller than its header (`PallocAlloc.RoundedWraps`).
- Palloc.Pool.Pcalloc: validity is kept only when the size_t product is such a request.
- Palloc.Pool.Prealloc leaves out the in-place growth of lines 130-143, and requires a request below 2^32 − 11 as palloc does. Its guard is false for every live block (`PallocOps.ReallocGuardDead`). `prealloc` of a pointer that is neither NULL nor live is not modelled.
- Palloc.Pool.Pfree requires a pointer that is NULL or points just past a header the pool has written. A pointer to memory the allocator never touched reads an arbitrary header in C and is not modelled.
- Palloc.Pool.PallocStats always reports the three values. The NULL checks on the out-pointers only decide which of them the caller receives.
- The anchor is modelled by its `next` field. Its `flagNsize` is 0 at every step `_insert_link` reads it, because `_set_link(&_anchor, 0, …)` is the only write to it.
- A 64-bit `size_t` is not modelled. The model fixes W = 4 and H = 8, the layout of the 32-bit targets.
