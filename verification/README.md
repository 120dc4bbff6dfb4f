# Verified model of the XBoot server core

XBoot boots diskless machines: it serves each client a disk made of a read-only master image under
a copy-on-write overlay, over iSCSI, and hands out the boot loader by DHCP and TFTP. This project
models the parts of that server whose correctness is not visible in any one function, and proves
what they promise. `dafny verify dfyconfig.toml` checks everything.

Code that changes state step by step is modelled the same way: the disk writer and readers, the
volume and its overlay, the cache, the session object, the SCSI target, the receive loop, the TFTP
sender and the codecs are classes and methods with loops. Each is proved against a function of its inputs or of its
old state, and the results below are proved about those functions, over every input, every run or
every interleaving.

| files | part of XBoot |
|---|---|
| `Wrappers`, `Bytes`, `Numerals`, `Store` | results, fixed-width and big-endian numbers, decimal text, stores and reads that can fail |
| `VhdFormat`, `VhdWriter`, `BlockMap`, `DynamicVhd`, `Flatten`, `FlattenLimit` | the dynamic-VHD writer, its reader, that one inverts the other, and exactly how far |
| `ChainedVhd`, `PartialBitmaps` | increment chains: two-pass sector resolution over layers, and images of which only some sectors are written |
| `Volume`, `VolumeWriters`, `VolumeWriterRuns`, `LostUpdates` | the copy-on-write volume against a flat disk, concurrent writers on it, and when they undo each other |
| `Schedules`, `Cache`, `CacheTraces`, `CacheReaders` | schedules, and the shared LRU cache: accounting, inclusion between budgets, concurrent readers |
| `CachedVolumes` | a volume over a cached master |
| `Pdu`, `KeyText`, `Initiator`, `Transport`, `Streams` | PDU decoding, key=value text, the initiator's encoding, the accumulate-and-drain loop, and what it makes of a stream of encoded requests |
| `Scsi`, `Cdbs`, `Session`, `Connection` | SCSI execution, CDBs as laid out and what is told of them, and the iSCSI session, as a state machine and as the object that runs it |
| `Logins`, `PlainReplies`, `Replies` | what a login comes to, what requests without a LUN are answered, and that the status of a command is the truth about the disk |
| `SessionRuns`, `Executions`, `WriteAssembly`, `WriteCoverage`, `R2tServing`, `R2tRuns`, `ReadBack` | results over whole sessions: stages, StatSN, READs against a flat disk, write assembly in and out of order and by answering R2Ts |
| `WriteThenRead`, `Wire` | blocks written are blocks read, from the first login byte on the wire on |
| `Tftp`, `TftpProtocol`, `TftpProgress` | the TFTP sender, alone and against a client on an unreliable network, and exactly when and how it ends |
| `Crc32c`, `Vhdx`, `VhdxLayout` | CRC-32C, the VHDX structures it guards, and their layout |
| `Dhcp` | the DHCP packet codec |

## How it is modelled

- A file is its bytes. A master is its bytes and the set of positions that cannot be read, so read
  errors are part of every statement about volumes, caches and sessions.
- Fixed-width counters wrap where the source's do. The source is built without a profile of its
  own, so its arithmetic panics on overflow in debug builds and wraps in release builds; the model is the release
  build. This matters for `next_block_sector` (`VhdWriter`), StatSN, CmdSN and `received`
  (`Session`), and the one-byte option length (`Dhcp`).
- The block loop of each method that reads or writes a range is recursive in its specification
  over (block, offset in block), so that the specification needs no division.
- Steps that other threads may come between are separate steps of a state machine: an overlay
  lookup, a master read and an overlay store (`VolumeWriters`), and a cache lookup, a disk read and an insertion (`CacheReaders`).

## Where the code departs from what one would expect

Each of these is stated as a lemma about the code as it is.

- The writer's only size guard, on the number of blocks, does not keep its 32-bit sector number
  from wrapping. `BatExactIffFits` gives the exact bound; 2040 GiB of 2 MiB blocks is inside it and a
  2 TiB source without a zero block is not. Such an image still opens, and its first wrapped block is
  read out of the BAT (`DenseTwoTiBReads`), so a source of nothing but ones does not come back (`OnesTwoTiBLosesData`).
  In general, every source with a given set of zero blocks comes back if and only if the image fits (`PatternIff`).
- A chain prefers any layer whose sector bit is set over a newer layer that merely stores the
  block. The two choose the same layer exactly under the condition of `SameOwnerIff`; then they read the same byte
  (`DecideNothingNests`), and otherwise each reads its own layer (`DecideSomethingParts`), which can differ (`TwoLayersDiffer`).
- The session counts the bytes of a write rather than which ones arrived, so a write can execute
  before all of it was sent (`CountsNotCovers`). `ExecutesPayloadIff` gives the exact condition, for an initiator that sends the payload's own
  bytes at any offset, in any order and with any overlap: the payload is executed if and only if it is zero
  wherever it was not sent. Sending no byte twice is enough, in whatever order (`DisjointRunsExecutePayloads`).
- A new R2T answers every Data-Out, so an initiator that serves its R2Ts in the order in which they come sends bytes twice and has
  its count completed early. `ServingExecutes` gives the exact condition, on numbers known before the write starts: each R2T fits one
  Data-Out, or what is not immediate data fits one R2T or two Data-Outs. With Data-Outs of 8192 bytes and MaxBurstLength 262144 it fails
  for every write that leaves more than 256 KiB to be solicited.
- Two writers that share a block can undo each other (`UpdateLost`). Writers that never write the same byte always leave what some
  sequential order leaves if and only if no two of them share a block (`SequentialIff`).
- MaxBurstLength is negotiated to 0 exactly when some key offers 0, and then every R2T asks for nothing (`BurstZeroIff`, `R2tAsksIff`).
- MaxRecvDataSegmentLength is taken from the initiator without a limit (`AnyLimitAccepted`), and a segment of 2^24 bytes
  or more does not fit the 24-bit length field it is framed with (`FrameLengthIff`). The Data-In PDUs of a READ
  all fit exactly when the segment limit or the data is below that (`ChunksFitIff`).
- InitialR2T is ANDed and a Nop-In reply consumes no StatSN; both are modelled as written.
- The TFTP sender's 16-bit block number returns to 0 after block 65535, and slicing the data then
  fails. `CrashIff` says that this can happen exactly from 65535 full blocks on, and the transfer results are for shorter files.
- Inclusion between two cache budgets is not a matter of size alone: it holds for every master and every
  history if and only if the smaller budget is 0 or at least a block, or both are below a block (`InclusionIff`).
- The target looks at a command's CDB and not at its flags, so a WRITE CDB without the write flag is executed
  with its immediate data (`FlaglessWrites`); `ReadBack` treats such commands as what they are.

## Model

| member | source | states |
|---|---|---|
| `VhdFormat.Checksum` | crates/xboot-core/src/storage/vhd/write.rs:18-26 | the wrapping loop yields the ones complement of the byte sum outside the checksum field |
| `VhdFormat.ChecksumComplements` | crates/xboot-core/src/storage/vhd/write.rs:18-26 | checksum and sum of the bytes outside its field are 0xFFFFFFFF modulo 2^32 |
| `VhdFormat.BuildFooter` | crates/xboot-core/src/storage/vhd/write.rs:60-91 | the footer has the cookie, size, type and header offset of a dynamic disk and a checksum over itself, whatever the clock, geometry and UUID bytes are |
| `VhdFormat.BuildHeader` | crates/xboot-core/src/storage/vhd/write.rs:124-134 | the dynamic header names the BAT, its length and the block size, and carries its own checksum |
| `VhdFormat.ParseFooter` | crates/xboot-core/src/storage/vhd/footer.rs:25-51 | the loop-based parser is `FooterOf`, with every rejection: short input, wrong cookie, wrong checksum |
| `VhdFormat.FooterRoundTrip` | crates/xboot-core/src/storage/vhd/footer.rs:25-51 | a written footer is accepted and gives back its size, type and header offset |
| `VhdFormat.FooterDetectsOneByte` | crates/xboot-core/src/storage/vhd/footer.rs:25-51 | changing any one byte of any accepted footer makes it rejected |
| `VhdWriter.ReadBlock` | crates/xboot-core/src/storage/vhd/write.rs:149-157 | the block buffer holds the source bytes and zeros beyond a partial last block; fails exactly when the source cannot be read there |
| `VhdWriter.WriteBlocks` | crates/xboot-core/src/storage/vhd/write.rs:139-167 | the loop appends bitmap and data of exactly the non-zero blocks and records each one's wrapped sector number; fails exactly when the source has an unreadable byte |
| `VhdWriter.EncodeBat` | crates/xboot-core/src/storage/vhd/write.rs:175-181 | the backfilled BAT bytes are the entries, big-endian, in order |
| `VhdWriter.WriteDynamicVhd` | crates/xboot-core/src/storage/vhd/write.rs:96-185 | the emitted file is footer, header, padded BAT, extents, footer, with the BAT backfilled; rejected exactly for too many blocks, else fails exactly when the source is unreadable |
| `VhdWriter.BatExactIffFits` | crates/xboot-core/src/storage/vhd/write.rs:139-167 | every BAT entry is its block's true sector and not the hole marker if and only if the last stored block starts below sector 0xFFFFFFFF |
| `VhdWriter.FitsUpTo2040GiB` | crates/xboot-core/src/storage/vhd/write.rs:101-141 | every source of up to 2040 GiB fits with 2 MiB blocks |
| `VhdWriter.DenseTwoTiBDoesNotFit` | crates/xboot-core/src/storage/vhd/write.rs:105-107 | a 2 TiB source with no zero block passes the block-count guard and does not fit |
| `Flatten.DenseTwoTiBReads` | crates/xboot-core/src/storage/vhd/write.rs:139-167 | the image of every 2 TiB source without a zero block opens with the right size, and the first byte of its first wrapped block reads as 0 or 0x78 whatever the source has there |
| `Flatten.OnesTwoTiBLosesData` | crates/xboot-core/src/storage/vhd/write.rs:139-167 | a 2 TiB source of nothing but ones is written, opens, and reads back a different byte |
| `FlattenLimit.OneComesBack` | crates/xboot-core/src/storage/vhd/write.rs:139-167 | of two sources with the same zero blocks that agree before a block out of range and differ in it, written with the same footer and header, at most one is read back |
| `FlattenLimit.PatternIff` | crates/xboot-core/src/storage/vhd/write.rs:139-167 | for any size, legal block size and set of zero blocks, every source with just these zero blocks comes back from its image if and only if the image fits |
| `VhdWriter.ExtentsTileFile` | crates/xboot-core/src/storage/vhd/write.rs:136-181 | the extents the BAT points at are disjoint and cover exactly the bytes between padded BAT and trailing footer; the file length is the sum of its parts |
| `BlockMap.ReadUnits` | crates/xboot-core/src/storage/blockmap.rs:18-54 | succeeds exactly when the range is inside the image and every byte of it can be resolved, and then every byte of the buffer is the one its unit's location gives |
| `DynamicVhd.Open` | crates/xboot-core/src/storage/vhd/dynamic.rs:33-98 | opening, with its BAT and bitmap loops and every error, is `OpenSpec` of the file's bytes |
| `DynamicVhd.Vhd.ReadAt` | crates/xboot-core/src/storage/vhd/dynamic.rs:187-202 | a read returns for every position the byte that position's sector has: zero for a hole or a clear bit, the file's byte otherwise; which bit is which sector's is in `PartialBitmaps` |
| `Flatten.OpensBack` | crates/xboot-core/src/storage/vhd/dynamic.rs:33-98 | the writer's output opens, with the source's size, the writer's block size, and each stored block and each hole where the reader looks for them |
| `Flatten.FlattenRoundTrip` | crates/xboot-core/src/storage/vhd/write.rs:96-185 | for every source that fits and every legal block size, the emitted bytes open to a disk whose every byte is the source's |
| `Flatten.FlattenUpTo2040GiB` | crates/xboot-core/src/storage/vhd/write.rs:96-185 | the round trip with the writer's own block size, for every source of up to 2040 GiB |
| `Flatten.FlattenAndRead` | crates/xboot-core/src/storage/vhd/write.rs:216-234 | write, open and read, for every source: fails if it is unreadable or has 2^32 blocks; of every other that fits, every in-range read returns exactly its bytes and every other read is rejected |
| `ChainedVhd.Open` | crates/xboot-core/src/storage/vhd/chain.rs:28-49 | the layers are opened newest first; succeeds exactly when every increment opens with the base's size |
| `ChainedVhd.ReadAt` | crates/xboot-core/src/storage/vhd/chain.rs:57-106 | the two-pass sector loop returns `ByteAt` for every byte, and succeeds exactly when every byte of the range resolves |
| `ChainedVhd.ReadsOwner` | crates/xboot-core/src/storage/vhd/chain.rs:79-104 | each byte comes from the newest layer with the bit set, else the newest layer with the block stored, else the base |
| `ChainedVhd.SameOwnerIff` | crates/xboot-core/src/storage/vhd/chain.rs:82-98 | two-pass resolution and one-layer-at-a-time resolution choose the same layer if and only if the newest stored block has the bit or no older layer has it |
| `ChainedVhd.DecideNothingNests` | crates/xboot-core/src/storage/vhd/chain.rs:79-104 | where the newest stored block has the bit or no older layer has it, reading a chain is applying its layers one at a time over the base |
| `ChainedVhd.DecideSomethingParts` | crates/xboot-core/src/storage/vhd/chain.rs:79-104 | everywhere else, one-at-a-time reads the newest layer that stores the block and the chain an older layer whose bit is set |
| `ChainedVhd.TwoLayersDiffer` | crates/xboot-core/src/storage/vhd/chain.rs:82-98 | a chain of two layers on which the two read different bytes |
| `ChainedVhd.FullBitmapsNest` | crates/xboot-core/src/storage/vhd/chain.rs:79-104 | with full bitmaps in every newer layer, reading a chain is applying its layers one at a time over the base |
| `ChainedVhd.ReadStore` | crates/xboot-core/src/storage/vhd/chain.rs:57-106 | a chain read is a read of the store whose bytes are the chain's and whose faults are the positions it cannot resolve |
| `ChainedVhd.FlattenPreservesChain` | crates/xboot-core/src/storage/vhd/write.rs:96-185 | an image of any chain that resolves and fits reads, at every position, the byte that two-pass resolution gives |
| `ChainedVhd.FlattenChain` | crates/xboot-core/src/storage/vhd/write.rs:96-185 | flattening a chain succeeds exactly when every byte of it resolves and there are fewer than 2^32 blocks, and up to 2040 GiB the output reads, everywhere, what the chain reads |
| `PartialBitmaps.MarkedAlone` | crates/xboot-core/src/storage/vhd/dynamic.rs:125-126 | a bitmap of zeros with one of 0x80, 0x40, .., 1 in byte k / 8 marks sector k and no other |
| `PartialBitmaps.MarkOneMore` | crates/xboot-core/src/storage/vhd/dynamic.rs:125-126 | adding the bit of one clear sector to any bitmap changes the answer for that sector alone |
| `PartialBitmaps.SetMeans` | crates/xboot-core/src/storage/vhd/dynamic.rs:125-126 | any set of sectors, encoded most significant bit first, is read back from its bitmap |
| `PartialBitmaps.BitmapFits` | crates/xboot-core/src/storage/vhd/dynamic.rs:65-67 | the bitmap takes the fewest whole sectors that have a bit for every sector of a block |
| `PartialBitmaps.OpenedPartly` | crates/xboot-core/src/storage/vhd/dynamic.rs:76-98 | in an opened file, a block's bitmap and data are the bytes from its BAT entry on |
| `PartialBitmaps.ReadsPartly` | crates/xboot-core/src/storage/vhd/dynamic.rs:103-202 | for every set of written sectors of a stored block, a read gives its data inside the set and zero outside |
| `PartialBitmaps.ChainReads` | crates/xboot-core/src/storage/vhd/chain.rs:57-106 | layers that each keep any set of sectors of the block, or nothing: a chain read gives the data of the newest that marks the sector, else of the newest that stores the block, else the base's byte |
| `Volume.RamOverlay.ReadBlock` | crates/xboot-core/src/volume/overlay.rs:43-52 | copies a stored block out and says whether there was one |
| `Volume.RamOverlay.WriteBlock` | crates/xboot-core/src/volume/overlay.rs:54-59 | replaces exactly one block of the map |
| `Volume.Volume.ReadAt` | crates/xboot-core/src/volume/mod.rs:50-70 | returns the flat disk's slice, exactly when the range is in bounds and each byte is overlaid or readable |
| `Volume.Volume.WriteAt` | crates/xboot-core/src/volume/mod.rs:76-101 | out of range nothing changes; otherwise exactly the written prefix of the range is replaced, all of it on success |
| `Volume.Volume.WriteChunk` | crates/xboot-core/src/volume/mod.rs:83-97 | one block is stored whole or read-modified-written, or nothing changes if the master cannot supply it |
| `Volume.Volume.Reset` | crates/xboot-core/src/volume/mod.rs:104-106 | the disk is the master again |
| `Volume.WritePatches` | crates/xboot-core/src/volume/mod.rs:76-101 | a write of any length at any offset, including over the short tail block, is a replacement of exactly the bytes it got through |
| `Volume.FailedWriteStops` | crates/xboot-core/src/volume/mod.rs:83-97 | a write that fails stopped at a partly covered block that is not in the overlay and not readable, with exactly the bytes before it done |
| `Volume.WriteSucceedsIff` | crates/xboot-core/src/volume/mod.rs:76-101 | a write succeeds if and only if every block it only partly covers is in the overlay or readable |
| `Volume.StepRefinesFlat` | crates/xboot-core/src/volume/mod.rs:50-106 | one read, write or reset does to the volume what it does to a flat array, with the reply a flat array gives unless the master fails |
| `Volume.HistoryRefinesFlat` | crates/xboot-core/src/volume/mod.rs:29-106 | over every history of reads, writes and resets the volume is a flat byte array and the block-length contract holds |
| `VolumeWriters.ChunkAlone` | crates/xboot-core/src/volume/mod.rs:83-97 | the split steps of one undisturbed writer store the block that `write_at` stores |
| `VolumeWriters.StateIsSequential` | crates/xboot-core/src/volume/mod.rs:76-101 | writers on disjoint blocks: in every state of every interleaving, failed writers included, the disk is what the parts stored so far leave in any sequential order |
| `VolumeWriterRuns.WriterStops` | crates/xboot-core/src/volume/mod.rs:76-101 | a writer finishes or fails within three of its own steps per byte it has left, whatever the others do |
| `VolumeWriterRuns.FairRunsAreSequential` | crates/xboot-core/src/volume/mod.rs:76-101 | under every fair schedule, faults included, every writer stops, has failed exactly if it would have failed alone, and the disk is what the calls leave in any order, each as far as it gets alone |
| `VolumeWriterRuns.InterleavingIsSequential` | crates/xboot-core/src/volume/mod.rs:76-101 | on a master without faults every fair schedule finishes every writer, and the disk is what the whole calls leave in any sequential order |
| `VolumeWriterRuns.NoFaultNoFailure` | crates/xboot-core/src/volume/mod.rs:76-101 | without master faults no writer has failed after any schedule whatever |
| `LostUpdates.UpdateLost` | crates/xboot-core/src/volume/mod.rs:83-97 | two writers of one byte each in one stored block: load, load, store, store loses the second writer's byte |
| `LostUpdates.SharedLoses` | crates/xboot-core/src/volume/mod.rs:76-101 | whenever two calls share a block, some overlay and some fair schedule lose a byte of one of them, so that no order explains the disk |
| `LostUpdates.SequentialIff` | crates/xboot-core/src/volume/mod.rs:76-101 | writers on a faultless master that never write the same byte leave, for every overlay and fair schedule, what any sequential order leaves, if and only if no two share a block |
| `Cache.LruState.Get` | crates/xboot-core/src/cache/mod.rs:107-113 | a hit returns the block and makes it the most recent; nothing else changes |
| `Cache.LruState.Insert` | crates/xboot-core/src/cache/mod.rs:29-41 | the block becomes most recent, the least recent ones go until the byte counter, which stays exact, is within budget, and a block that fits survives |
| `Cache.EvictKeepsNewest` | crates/xboot-core/src/cache/mod.rs:24-41 | a just-inserted block that fits survives its own eviction loop |
| `Cache.EvictIsLongest` | crates/xboot-core/src/cache/mod.rs:34-39 | eviction keeps the longest most-recently-used run that fits |
| `Cache.CachedStore.ReadAt` | crates/xboot-core/src/cache/mod.rs:94-135 | a read succeeds exactly when the store with its faults rounded out to blocks can supply the range, and returns the store's own bytes; cache, counters and access history are those of the block loop, which stops at the first unreadable block |
| `Cache.CachedStore.ReadBlock` | crates/xboot-core/src/cache/mod.rs:104-129 | through the cache or not, the block is the one the store itself would return, error included |
| `Cache.VisitMeans` | crates/xboot-core/src/cache/mod.rs:94-135 | a read accesses the blocks of its range in order, up to and including the first unreadable one, and succeeds exactly when all are readable |
| `Cache.TouchedConsecutive` | crates/xboot-core/src/cache/mod.rs:98-103 | the blocks of a range are consecutive, from its first byte's to its last byte's |
| `Cache.ReplaySound` | crates/xboot-core/src/cache/mod.rs:94-135 | after any history the cache holds only the store's own blocks, each once, within budget |
| `Cache.HitsAreFound` | crates/xboot-core/src/cache/mod.rs:107-119 | over any history the counters say how many accesses found their block cached, and how many did not |
| `Cache.RemoveAt` | crates/xboot-core/src/cache/mod.rs:29-41 | a block that is used again or replaced loses its old place and the others keep their order |
| `CachedVolumes.CachedVolume.ReadChunk` | crates/xboot-core/src/volume/mod.rs:63-66 | over a cached master the part of a read in one block is what it is over the rounded store: the flat disk's slice, exactly when overlaid or readable |
| `CachedVolumes.CachedVolume.WriteChunk` | crates/xboot-core/src/volume/mod.rs:83-97 | over a cached master the part of a write in one block stores what it stores over the rounded store, or nothing if that cannot supply it |
| `CacheTraces.AccessNests` | crates/xboot-core/src/cache/mod.rs:94-135 | one access keeps the smaller cache a prefix of the larger and hits only where the larger does |
| `CacheTraces.ReadTrace` | crates/xboot-core/src/cache/mod.rs:94-135 | reading a trace leaves exactly the state of its block accesses, which do not depend on the budget |
| `CacheTraces.TraceInclusion` | crates/xboot-core/src/cache/mod.rs:29-135 | on any read trace, for budgets that nest, the cache is a most-recent prefix of the cache under the larger budget and each of its hits is a hit there |
| `CacheTraces.InclusionIff` | crates/xboot-core/src/cache/mod.rs:29-135 | for two budgets, prefix inclusion and hit inclusion hold for every master and every history if and only if the smaller is 0 or at least a block, or both are below a block; masters of up to the larger budget and one block more decide it |
| `CacheTraces.SmallBudgetCanHitMore` | crates/xboot-core/src/cache/mod.rs:122-128 | the smallest case where inclusion fails: with budgets of 1 and of one block, a trace hits only in the smaller cache |
| `CacheReaders.InsertKeeps` | crates/xboot-core/src/cache/mod.rs:29-41 | an insertion after any other steps keeps the byte counter equal to the cached lengths and within budget, and the block survives |
| `CacheReaders.ReaderStepKeeps` | crates/xboot-core/src/cache/mod.rs:104-132 | each lookup, unlocked disk read or insertion keeps the cache and the reader right, and moves a reader that has not stopped closer to its end |
| `CacheReaders.RunKeeps` | crates/xboot-core/src/cache/mod.rs:94-135 | under every schedule the counter is exact, the budget holds, every cached block is the store's and every reader holds a prefix of its range's bytes |
| `CacheReaders.ReadersSeeTheMaster` | crates/xboot-core/src/cache/mod.rs:94-135 | under every schedule a finished reader has the store's bytes, and one fails only on a block the store cannot supply |
| `CacheReaders.ReaderStops` | crates/xboot-core/src/cache/mod.rs:98-134 | a reader finishes or fails within a bounded number of its own steps, whatever the others do |
| `Initiator.DecodedIffEncodable` | crates/xboot-core/src/iscsi/pdu.rs:136-237 | what decoding can yield is exactly what an initiator can lay out: every request in one is in the other |
| `Initiator.RelayStable` | crates/xboot-core/src/iscsi/pdu.rs:136-237 | whatever was decoded, laid out again with its data segment, decodes to itself |
| `Pdu.RefusedIff` | crates/xboot-core/src/iscsi/pdu.rs:136-148 | a whole header is refused exactly for a non-zero AHS length, or else for more than 262144 bytes of data as its bytes 5 to 7 say |
| `KeyText.TextRoundTrip` | crates/xboot-core/src/iscsi/text.rs:6-41 | every list of pairs that can be sent, encoded as Key=Value and NUL, is read back in order, before whatever follows |
| `KeyText.KeylessSkipped` | crates/xboot-core/src/iscsi/text.rs:6-27 | an entry without = or without a key is skipped |
| `Pdu.DecodeStable` | crates/xboot-core/src/iscsi/pdu.rs:136-152 | appended bytes never change a decoded request or a structural error |
| `Pdu.ShortIff` | crates/xboot-core/src/iscsi/pdu.rs:136-151 | decoding says "short" exactly when bytes yet to come can change its answer, some bytes always settle it, and it is exactly a missing header or a missing rest |
| `Pdu.Frame` | crates/xboot-core/src/iscsi/pdu.rs:258-265 | only the length field of the header is set, then data and zero padding to four bytes follow |
| `Pdu.FrameLengthIff` | crates/xboot-core/src/iscsi/pdu.rs:244-265 | the receiver finds the end of a framed response if and only if its data is shorter than 2^24 bytes |
| `Executions.AnyLimitAccepted` | crates/xboot-core/src/iscsi/session/params.rs:38-42 | MaxRecvDataSegmentLength is taken over as the initiator gives it, whatever 32-bit number it is |
| `Executions.ChunksFitIff` | crates/xboot-core/src/iscsi/session/mod.rs:289-321 | the Data-In PDUs of a non-empty READ all fit the 24-bit length field if and only if the segment limit or the data is under 2^24 bytes |
| `Initiator.DecodeEncode` | crates/xboot-core/src/iscsi/pdu.rs:136-237 | every request laid out as RFC 7143 section 11 has it decodes to exactly itself, whatever follows it in the stream |
| `Transport.DrainBuffer` | crates/xboot-core/src/iscsi/transport.rs:54-113 | the inner loop hands every complete PDU to the session and leaves the rest, stopping as `Drain` does |
| `Transport.HandleConn` | crates/xboot-core/src/iscsi/transport.rs:52-157 | the outer loop over the chunks read is `Feed`: requests, replies, session, leftover bytes and reason to stop |
| `Transport.DrainAppend` | crates/xboot-core/src/iscsi/transport.rs:54-113 | draining more bytes goes on where draining fewer left off; a stopped connection ignores what follows |
| `Transport.DrainRuns` | crates/xboot-core/src/iscsi/transport.rs:54-113 | draining a buffer is running the session on the requests it hands over, so every result about runs applies |
| `Transport.SegmentationIndependent` | crates/xboot-core/src/iscsi/transport.rs:52-157 | any two ways of cutting a byte stream into reads, idle timeouts included, give the same requests and headers, replies, session and stop |
| `Streams.StreamHandedOver` | crates/xboot-core/src/iscsi/transport.rs:54-113 | of a stream of encoded requests every one is handed over, in order and with its header, as long as the session stays open |
| `Streams.TailDecides` | crates/xboot-core/src/iscsi/transport.rs:54-113 | an incomplete PDU behind them is kept for more bytes; anything else that is no PDU ends the connection |
| `Streams.ClosingStops` | crates/xboot-core/src/iscsi/transport.rs:96-101 | the request that closes the session is the last one handed over |
| `Scsi.ScsiTarget.Execute` | crates/xboot-core/src/iscsi/scsi/mod.rs:145-156 | execution, with its changes to the volumes and every sense code, is `ExecuteSpec`; what that means for each CDB is in `Cdbs` |
| `Scsi.ScsiTarget.ReportLuns` | crates/xboot-core/src/iscsi/scsi/mod.rs:159-175 | the list built by the loop is its length and one entry for each present LUN |
| `Scsi.EntryOf` | crates/xboot-core/src/iscsi/scsi/mod.rs:159-175 | each present LUN's entry stands right behind those of the present LUNs below it |
| `Scsi.EntryResolves` | crates/xboot-core/src/iscsi/scsi/mod.rs:180-185 | a listed entry, used as a LUN field, selects the LUN it lists |
| `Scsi.ReadDisk` | crates/xboot-core/src/iscsi/scsi/cdb.rs:147-164 | READ: no-op, range error, medium error or exactly the blocks of the flat disk |
| `Scsi.WriteDisk` | crates/xboot-core/src/iscsi/scsi/cdb.rs:126-145 | WRITE: no-op, range error, length error, or the volume's write with its status |
| `Scsi.InRangeBytes` | crates/xboot-core/src/iscsi/scsi/cdb.rs:131-137 | a range of whole blocks accepted as in range lies inside the volume in bytes |
| `Scsi.DispatchDisk` | crates/xboot-core/src/iscsi/scsi/cdb.rs:70-145 | a WRITE in range with exactly its data replaces exactly its blocks, GOOD exactly when all of them; every other command leaves the disk alone |
| `Scsi.DispatchRead` | crates/xboot-core/src/iscsi/scsi/cdb.rs:147-164 | a READ in range returns exactly its blocks, or a medium error if the master fails |
| `Cdbs.TransferIff` | crates/xboot-core/src/iscsi/scsi/cdb.rs:29-81 | a CDB moves `n` blocks from or to `lba` if and only if it is READ or WRITE, (10) or (16), laid out with that LBA and length, whatever its other bytes |
| `Cdbs.InRangeIff` | crates/xboot-core/src/iscsi/scsi/cdb.rs:126-164 | a block range is accepted if and only if it lies inside the disk in bytes |
| `Cdbs.LunField` | crates/xboot-core/src/iscsi/scsi/mod.rs:180-185 | a LUN field selects the number in its second byte, and only if its first is zero |
| `Cdbs.UnitsListed` | crates/xboot-core/src/iscsi/scsi/mod.rs:159-175 | REPORT LUNS gives the list's length and, in order, the field that addresses each present LUN |
| `Cdbs.WriteOutcome` | crates/xboot-core/src/iscsi/scsi/cdb.rs:126-145 | a WRITE is GOOD exactly if its LUN exists and all its data is on the flat disk or no block was asked for; otherwise it has the sense of the cause, and exactly the part that cause lets through is on the disk |
| `Cdbs.ReadOutcome` | crates/xboot-core/src/iscsi/scsi/cdb.rs:147-164 | a READ gives the flat disk's blocks exactly if its LUN exists, the range is inside and every byte is written or readable; otherwise the sense of the cause |
| `Cdbs.OtherOutcome` | crates/xboot-core/src/iscsi/scsi/cdb.rs:70-87 | every other operation code leaves the disks alone and is answered as listed, the unknown ones by INVALID OPERATION CODE |
| `Connections.Connection.constructor` | crates/xboot-core/src/iscsi/session/mod.rs:90-100 | a new connection is in the initial state |
| `Connections.Connection.Handle` | crates/xboot-core/src/iscsi/session/mod.rs:120-131 | the object makes exactly the state machine's step, with its replies, and changes no other target |
| `Connections.Connection.HandleLogin` | crates/xboot-core/src/iscsi/session/login.rs:10-94 | the object makes the step and the reply of `Session.HandleLogin` for a login PDU; what that comes to is in `Logins` |
| `Connections.Connection.ScsiCommand` | crates/xboot-core/src/iscsi/session/mod.rs:214-285 | a command is rejected, starts a write, or is executed and answered by Data-In or a response |
| `Connections.Connection.DataInChunks` | crates/xboot-core/src/iscsi/session/mod.rs:289-321 | the chunk loop emits `Chunks` and consumes one StatSN |
| `Connections.Connection.BeginWrite` | crates/xboot-core/src/iscsi/session/mod.rs:325-361 | immediate data is stashed; the write is executed, rejected, or an R2T is sent |
| `Connections.Connection.DataOut` | crates/xboot-core/src/iscsi/session/mod.rs:364-399 | Data-Out is placed, counted, and answered by an R2T, a reject or the execution |
| `Connections.Connection.FinishWrite` | crates/xboot-core/src/iscsi/session/mod.rs:402-428 | the assembled buffer is executed, and status and sense of the outcome are sent; what they say about the disk is in `Replies` |
| `Connections.NegotiateKeys` | crates/xboot-core/src/iscsi/session/params.rs:36-59 | the loop folds every key of a login request into the parameters |
| `Numerals.DecimalRoundTrip` | crates/xboot-core/src/iscsi/session/login.rs:49-56 | a limit the target announces in decimal is read back as that limit |
| `Numerals.ParseIff` | crates/xboot-core/src/iscsi/session/params.rs:39-52 | a value is taken as the number n exactly if it is n in decimal, after an optional plus sign and leading zeros, and n is in range |
| `Logins.LoginMeans` | crates/xboot-core/src/iscsi/session/login.rs:10-116 | every login PDU in the login stage: the stage and binding it leads to, the parameters then in force, the counters, and every field of the reply |
| `Logins.FullFeatureIff` | crates/xboot-core/src/iscsi/session/login.rs:22-66 | the session enters FullFeature if and only if transit is set, nsg is 3 and a target is bound or a registered one named; Closing if and only if an unknown one is named or none by then; the reply agrees |
| `Logins.NegotiatedAll` | crates/xboot-core/src/iscsi/session/params.rs:36-59 | the limits in force are the least of start value and offers, MaxRecvDataSegmentLength is the last offer, a flag stands if only yes was said |
| `Logins.AnnouncesReply` | crates/xboot-core/src/iscsi/session/login.rs:47-60 | the keys of the reply, as an initiator reads them, are the parameters in force |
| `Logins.LoginRunIff` | crates/xboot-core/src/iscsi/session/login.rs:10-116 | over any run of login PDUs, FullFeature is reached if and only if the first that asks for it comes with or after the name of a registered target, and the session is bound to the first one named |
| `Logins.TwoStepLogin` | crates/xboot-core/src/iscsi/session/login.rs:62-66 | from the initial state, security to operational to full-feature ends in FullFeature, bound to exactly the target named, with the negotiated parameters |
| `PlainReplies.PlainAnswered` | crates/xboot-core/src/iscsi/session/mod.rs:146-209 | Nop-Out is echoed, SendTargets lists every target, task management is acknowledged, logout closes, and the rest is rejected with its header |
| `PlainReplies.MisplacedRejected` | crates/xboot-core/src/iscsi/session/mod.rs:364-373 | write data for no write, or past its end, is rejected, and the write it names is given up |
| `Session.HandleKeepsOk` | crates/xboot-core/src/iscsi/session/mod.rs:120-131 | every request keeps the invariants: writes in flight are short of their length with buffers of exactly it, and FullFeature or a write in flight implies a bound target |
| `SessionRuns.HandleFollows` | crates/xboot-core/src/iscsi/session/mod.rs:120-156 | one request never unbinds or rebinds the target, leaves Closing, raises a limit, or changes parameters after login |
| `SessionRuns.StageSafety` | crates/xboot-core/src/iscsi/session/login.rs:10-116 | the same over any run, so the target that `finish_write` expects is always there |
| `SessionRuns.InitialWellFormed` | crates/xboot-core/src/iscsi/session/mod.rs:90-100 | a new connection satisfies the invariants that runs keep |
| `SessionRuns.StatusNumbering` | crates/xboot-core/src/iscsi/session/mod.rs:112-116 | from FullFeature on, the i-th PDU of any run carries the starting StatSN plus the number of status-bearing PDUs before it, modulo 2^32; R2T, Nop-In and non-final Data-In consume none |
| `SessionRuns.RunNumbered` | crates/xboot-core/src/iscsi/session/mod.rs:112-209 | a run advances StatSN by exactly the status-bearing PDUs it sent |
| `SessionRuns.CommandNumbering` | crates/xboot-core/src/iscsi/session/mod.rs:106-109 | from FullFeature on, over any run, ExpCmdSN counts the SCSI commands taken, modulo 2^32, and every PDU advertises 16 commands beyond it |
| `Executions.HandleApplies` | crates/xboot-core/src/iscsi/session/mod.rs:214-428 | a request changes the bound LUNs by exactly the execution it causes, if any |
| `Executions.RunApplies` | crates/xboot-core/src/iscsi/session/mod.rs:214-428 | over any run the LUNs change by its executions and by nothing else |
| `Executions.ReplayIsFlat` | crates/xboot-core/src/iscsi/scsi/cdb.rs:126-145 | a LUN after any log of executions is the flat disk after its completed writes |
| `Executions.FaultlessCompletes` | crates/xboot-core/src/iscsi/scsi/cdb.rs:126-145 | on a master without faults every write completes |
| `Executions.ChunksTile` | crates/xboot-core/src/iscsi/session/mod.rs:289-321 | Data-In PDUs tile the data: contiguous offsets, DataSN 0, 1, 2, ..., none over the limit, only the last final and with status, and together exactly the data |
| `Executions.ReadTiles` | crates/xboot-core/src/iscsi/session/mod.rs:250-271 | a READ is answered by Data-In PDUs that tile exactly the disk's bytes, or by one CHECK CONDITION if the master fails |
| `Executions.ReadAfterRun` | crates/xboot-core/src/iscsi/session/mod.rs:214-321 | after any run whose writes completed, a READ of under 2^32 bytes delivers exactly the bytes of a flat disk updated by those writes; rejected and out-of-range commands changed nothing |
| `Replies.ReplyTells` | crates/xboot-core/src/iscsi/session/mod.rs:214-428 | the reply to whatever a request executes is its data in full Data-In segments, or one response with its status, sense and residual |
| `Replies.WriteAcknowledged` | crates/xboot-core/src/iscsi/session/mod.rs:402-428 | the one response to a completed write is GOOD exactly if its LUN exists and the payload is on the flat disk or no block was asked for; otherwise CHECK CONDITION with the cause |
| `WriteAssembly.StepAssembles` | crates/xboot-core/src/iscsi/session/mod.rs:325-428 | each action of a disciplined initiator keeps every buffer a prefix of its payload, and is answered by the right R2T or by executing exactly the payload |
| `WriteAssembly.RunAssembles` | crates/xboot-core/src/iscsi/session/mod.rs:325-428 | the same over every interleaving of writes: each R2T starts at the bytes received, stays within EDTL and burst limit, and R2TSN counts 0, 1, 2, ... |
| `Replies.RunAcknowledges` | crates/xboot-core/src/iscsi/session/mod.rs:325-428 | the same of every write completed in any run, under every interleaving |
| `Replies.GoodMeansCompleted` | crates/xboot-core/src/iscsi/session/mod.rs:402-428 | an initiator that hides no WRITE behind a missing flag and has seen only GOOD knows that every write took full effect |
| `Replies.SeenGoodReadsBack` | crates/xboot-core/src/iscsi/session/mod.rs:214-428 | then it reads back its payloads in completion order, whatever the faults of the master |
| `WriteAssembly.ExactlyOnce` | crates/xboot-core/src/iscsi/session/mod.rs:364-428 | for every tag the writes started are, in order, those executed, each once and with exactly its payload, then the one still in flight |
| `WriteAssembly.CompletesInTime` | crates/xboot-core/src/iscsi/session/mod.rs:364-399 | a write is executed within as many of its own Data-Outs as it lacks bytes, whatever is interleaved |
| `WriteAssembly.R2tAsksIff` | crates/xboot-core/src/iscsi/session/mod.rs:344-349 | an R2T asks for at least one byte if and only if MaxBurstLength is not zero |
| `WriteAssembly.BurstZeroIff` | crates/xboot-core/src/iscsi/session/params.rs:36-59 | MaxBurstLength is zero after negotiation if and only if it was zero or some key offers zero |
| `WriteAssembly.BurstCanReachZero` | crates/xboot-core/src/iscsi/session/params.rs:48-52 | MaxBurstLength=0 is accepted |
| `WriteAssembly.CountsNotCovers` | crates/xboot-core/src/iscsi/session/mod.rs:325-399 | the smallest case of a write executed with a byte that was never sent, from its command on: the same byte sent twice |
| `WriteCoverage.StepPlaces` | crates/xboot-core/src/iscsi/session/mod.rs:325-428 | for an initiator that sends the payload's own bytes anywhere, in any order: each buffer is the payload where it was sent and zero elsewhere, and is executed as such once the count is reached |
| `WriteCoverage.ExecutesPayloadIff` | crates/xboot-core/src/iscsi/session/mod.rs:374-399 | when the count is reached the write is executed with its payload if and only if the payload is zero outside the immediate data and the ranges sent |
| `WriteCoverage.DisjointCovers` | crates/xboot-core/src/iscsi/session/mod.rs:374-399 | ranges that never overlap cover the whole payload once their count is reached |
| `WriteCoverage.ExecutedAsSent` | crates/xboot-core/src/iscsi/session/mod.rs:325-428 | over any run, what is executed for a tag is each completed write as far as it was sent |
| `WriteCoverage.RunExecutesPayloadsIff` | crates/xboot-core/src/iscsi/session/mod.rs:325-428 | over any run, the writes of a tag are executed with their payloads if and only if each is zero wherever it was not sent |
| `WriteCoverage.DisjointRunsExecutePayloads` | crates/xboot-core/src/iscsi/session/mod.rs:325-428 | an initiator that sends no byte twice has every write executed with its payload, in whatever order it sends |
| `WriteCoverage.StartedAreDone` | crates/xboot-core/src/iscsi/session/mod.rs:325-428 | for every tag the writes started are, in order, those completed, then the one still open, whatever order their bytes come in |
| `R2tServing.WholeIff` | crates/xboot-core/src/iscsi/session/mod.rs:344-399 | serving R2Ts in order sends every byte by the time the count is complete if and only if each R2T fits one Data-Out, or the data that was not immediate fits one R2T or two Data-Outs |
| `R2tRuns.ClientServed` | crates/xboot-core/src/iscsi/session/mod.rs:364-399 | each Data-Out of such an initiator is answered by the R2T it goes on to serve, or by executing what has been sent |
| `R2tRuns.TurnsServe` | crates/xboot-core/src/iscsi/session/mod.rs:325-399 | over any run, among any other traffic, every R2T sent is one the initiator serves, and its write completes once |
| `R2tRuns.ServingExecutes` | crates/xboot-core/src/iscsi/session/mod.rs:325-428 | over any run, the write is executed once; with its payload, whatever that is, exactly under the condition of `WholeIff` |
| `ReadBack.LogIsAsked` | crates/xboot-core/src/iscsi/session/mod.rs:214-428 | what a session executes over a run is exactly what its initiator asked for: each write with its payload when its last byte goes out, every other command at once |
| `ReadBack.FlaglessWrites` | crates/xboot-core/src/iscsi/scsi/mod.rs:145-156 | a WRITE CDB in a command without the write flag replaces the blocks of its LUN by the immediate data |
| `ReadBack.ReadsBack` | crates/xboot-core/src/iscsi/session/mod.rs:214-428 | after any interleaving of writes, a READ delivers the flat disk after everything the initiator asked for; if no command without the write flag carries a WRITE CDB, that is its payloads written one after the other in completion order |
| `WriteThenRead.WrittenIsRead` | crates/xboot-core/src/iscsi/scsi/cdb.rs:47-81 | blocks written by WRITE(10) or (16) are delivered by READ(10) or (16) of the same LBA and length, in every mix, after any run that does not write them again |
| `WriteThenRead.LoginWriteRead` | crates/xboot-core/src/iscsi/session/login.rs:10-116 | the same from the initial state, through a two-step login to the target by name |
| `Wire.WireWriteRead` | crates/xboot-core/src/iscsi/transport.rs:52-157 | the same for the encoded bytes of login, writes and READ, however they are cut into reads |
| `Tftp.NegotiateBlksize` | crates/xboot-core/src/net/tftp/server.rs:194-206 | the first usable offer capped at the server's maximum, else 512; never below 8 |
| `Tftp.OfferIsFirst` | crates/xboot-core/src/net/tftp/server.rs:194-206 | the offer taken up is the earliest one that is a number of at least 8 |
| `Tftp.TransferBlocks` | crates/xboot-core/src/net/tftp/server.rs:222-323 | against any environment the loop ends, sends only the current block's bytes, waits base * 2^retries each time, and sends at most (len / blksize + 1) * (max_retries + 1) packets; how it ends is in `TftpProgress` |
| `Tftp.BackoffHolds` | crates/xboot-core/src/net/tftp/server.rs:229-322 | at every live state the timeout is base * 2^retries and the retries are not used up |
| `Tftp.SendsBounded` | crates/xboot-core/src/net/tftp/server.rs:229-322 | the bound on DATA packets, for every history of replies |
| `Tftp.CrashIff` | crates/xboot-core/src/net/tftp/server.rs:236-238 | some history of replies reaches block number 0 if and only if the file has at least 65535 full blocks |
| `TftpProtocol.StepKeeps` | crates/xboot-core/src/net/tftp/server.rs:229-322 | every send, loss, delivery, duplicate or timeout keeps client and server in step |
| `TftpProtocol.TransferSafety` | crates/xboot-core/src/net/tftp/server.rs:222-323 | on a network that loses, duplicates and reorders, the client's bytes are a prefix of the file, its expected block is the current one or the next, and the final ACK means it holds the whole file |
| `TftpProtocol.EmptyLastBlock` | crates/xboot-core/src/net/tftp/server.rs:242-254 | a file of whole blocks ends with an empty block, without which the client is not done |
| `TftpProgress.FinishedIff` | crates/xboot-core/src/net/tftp/server.rs:248-268 | after any history a transfer is finished if and only if it has under 65535 full blocks and some prefix acknowledges all its blocks in order, each before the retries ran out |
| `TftpProgress.FailsIff` | crates/xboot-core/src/net/tftp/server.rs:255-318 | it has failed if and only if some block went unacknowledged through its first send and every retry; as timed out exactly if the last wait was and the block was not the last |
| `TftpProgress.AtOnceFinishes` | crates/xboot-core/src/net/tftp/server.rs:222-323 | a client that acknowledges at once gets each of the len / blksize + 1 blocks exactly once, and the transfer is finished |
| `TftpProgress.CurrentAnswered` | crates/xboot-core/src/net/tftp/server.rs:229-254 | the current DATA can always be delivered, and the client answers it with its ACK |
| `TftpProgress.AckMoves` | crates/xboot-core/src/net/tftp/server.rs:248-280 | that ACK moves the server to the next block with fresh retries, and past the last block to the end |
| `TftpProgress.NeverStuck` | crates/xboot-core/src/net/tftp/server.rs:222-323 | from every live state the network can reach, two deliveries for each open block finish the transfer with the whole file at the client |
| `Crc32c.Crc` | crates/xboot-core/src/storage/vhdx/crc32c.rs:5-15 | the nested loops compute `CrcOf` |
| `Crc32c.StepInverse` | crates/xboot-core/src/storage/vhdx/crc32c.rs:9-12 | each bit step can be undone |
| `Crc32c.FoldInjective` | crates/xboot-core/src/storage/vhdx/crc32c.rs:7-13 | different register values stay different under the same data |
| `Crc32c.BurstDetected` | crates/xboot-core/src/storage/vhdx/crc32c.rs:5-15 | inputs of equal length that differ only within four consecutive bytes have different checksums |
| `Crc32c.CheckValue` | crates/xboot-core/src/storage/vhdx/crc32c.rs:5-15 | the published check value: the checksum of "123456789" is 0xE3069283 |
| `Vhdx.ParseOneHeader` | crates/xboot-core/src/storage/vhdx/structs.rs:27-48 | the parser, blanking its copy's checksum field in place, is `HeaderSpec` with its four rejections |
| `Vhdx.ParseBestHeader` | crates/xboot-core/src/storage/vhdx/structs.rs:51-60 | the result is a valid header with the greatest sequence number; fails exactly when both are invalid |
| `Vhdx.ParseRegionTable` | crates/xboot-core/src/storage/vhdx/structs.rs:70-102 | for each of the two GUIDs, the last entry that has it; rejected for signature, checksum or entry count |
| `Vhdx.GuardDetects` | crates/xboot-core/src/storage/vhdx/structs.rs:27-35 | of two structures that differ only within four consecutive bytes beside or inside the checksum field, at most one is accepted |
| `Vhdx.HeaderByteDetected` | crates/xboot-core/src/storage/vhdx/structs.rs:27-48 | an accepted header with any one of its 4096 bytes changed is rejected |
| `Vhdx.TableByteDetected` | crates/xboot-core/src/storage/vhdx/structs.rs:70-102 | an accepted region table with any one byte of its 64 KiB changed is rejected |
| `VhdxLayout.HeaderReadBack` | crates/xboot-core/src/storage/vhdx/structs.rs:27-48 | a header laid out field by field is accepted exactly with version 1 and an all-zero log GUID, and gives its sequence number |
| `VhdxLayout.TableReadBack` | crates/xboot-core/src/storage/vhdx/structs.rs:70-102 | a region table laid out field by field is accepted and gives offset and length of the last BAT and metadata entries |
| `Dhcp.ParseOptions` | crates/xboot-core/src/net/dhcp/packet.rs:86-117 | the index loop, total on every input, is `OptionsOf` |
| `Dhcp.Parse` | crates/xboot-core/src/net/dhcp/packet.rs:62-84 | parsing is `MessageOf`: too short, bad cookie, truncated option, or the message |
| `Dhcp.Encode` | crates/xboot-core/src/net/dhcp/packet.rs:120-147 | every header field stands in its place, zeros up to the cookie, then the options and END |
| `Dhcp.OptionsRoundTrip` | crates/xboot-core/src/net/dhcp/packet.rs:86-117 | encoded options are read back, in front of whatever follows |
| `Dhcp.PaddedRoundTrip` | crates/xboot-core/src/net/dhcp/packet.rs:86-117 | options with any run of PAD bytes before each of them are read back, in front of whatever follows |
| `Dhcp.PaddingIgnored` | crates/xboot-core/src/net/dhcp/packet.rs:86-117 | PAD bytes in any number before any option and before END, and any bytes after END, change nothing |
| `Dhcp.RoundTripIff` | crates/xboot-core/src/net/dhcp/packet.rs:62-147 | an encoded message, followed by anything, parses back to itself if and only if no option has code 0 or 255 or more than 255 bytes |
| `Dhcp.ReencodeStable` | crates/xboot-core/src/net/dhcp/packet.rs:62-147 | whatever the parser accepts survives being encoded and parsed again |

## Left out

- Sockets, tasks, cancellation, logging, the command line, HTTP and the iPXE scripts: plumbing around the modelled code. A receive loop is given the chunks it reads and an environment the replies it waits for; failing socket calls are not modelled.
- Opening files, positioned reads and the directory scan for increments: a file is its bytes and a chain is given its layers in order.
- The diagnostics `probe`, `dumpranges` and `block_bit_count`, and the two environment switches of the chain reader, which are taken to be unset.
- The clock, the UUID and the CHS geometry inside the VHD footer: arbitrary bytes.
- Raw and fixed VHDs and the VHDX metadata and BAT readers: bounds checks, or the walk of `BlockMap` again.
- INQUIRY, READ CAPACITY, MODE SENSE and REQUEST SENSE data: an arbitrary function of the CDB per LUN.
- The bytes of the response headers other than framing: the session's responses are records; key text is taken byte by byte as characters, without UTF-8 replacement.
- DHCP decisions, address assignment, configuration, path checks, and the parsing of TFTP requests and ACKs: short branching code.
- `LruCache`, `HashMap`, locks and atomics: a recency-ordered sequence, a map, and steps between lock acquisitions.
- Buffer contents after a read has failed: unspecified.
- Scsi.ScsiTarget.Execute: holds each volume by value and opens it for the command, so two connections that share one target, as after a reconnect, are not modelled; concurrent writers on one volume are, in `VolumeWriters`.
- Cache.CachedStore.ReadAt: requires the range to be inside the store, as its caller `Volume` ensures; outside it the source's block length underflows.
- DynamicVhd.Open: leaves out the guards on the BAT's length that a 32-bit entry count cannot fail on a 64-bit host.
- VhdWriter.BatExactIffFits: is about the layout, because a wrapped entry may still happen to point at equal bytes; `FlattenLimit.PatternIff` is about the bytes.
- R2tRuns.ServingExecutes: leaves out writes within one Data-Out of 2^32 bytes, where the session's count can wrap.
- Tftp.TransferBlocks: retry counts are unbounded integers and the doubled timeout cannot overflow, so a maximum of 2^32 - 1 retries is not modelled.
- Connections.Connection.HandleLogin: the registry does not change while a connection logs in, and its listing order is a parameter.
