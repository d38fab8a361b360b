# Verified model of the DVR forensics pipeline

The pipeline takes a raw disk image of a video recorder, acquires it block by block with digests,
parses the blocks with a grammar, checks the case again later, recovers frames from damaged areas,
and builds timelines over the cameras. This project models that path in Dafny and proves what its
parts promise each other. Loops and in-place updates are methods over arrays, sequences and maps,
each proved equal to a specification function; the properties are lemmas about those functions.

* **Carving** (`Carver*.dfy`, `DiskCarving`). The skipping start-code scanner, the frame splitter and the per-block
  driver: completeness of the scan, tiling and conservation of bytes, the exact relation between
  carving a block alone and carving the whole image, and the round trip with Annex B of ITU-T H.264.
* **Acquire, parse, verify** (`Source`, `Chunking`, `Acquisition`, `CaseParser`, `Verification`,
  `TamperLocalisation`, `ReportContents`, `ReaderAgreement`, `PayloadGuard`). The source is a class whose reads may be
  short or fail, as the environment chooses; the readers cut the image identically all the same.
  Tamper localisation, the exact pristine verdict and the agreement of the readers follow.
* **Synthetic format** (`Generator`, `Grammar`, `Interpreter`, `InterpreterContents`,
  `SyntheticFormat`, `Descrambler`, `GeneratedDisk`, `DiskContents`). Writer and interpreter are inverse for every block count from 32 and every base
  timestamp that does not overflow, through descrambling, demultiplexing and carving.
* **Header checksum** (`HeaderCrc`). The register is a polynomial remainder; the undetected errors
  are characterised exactly, and every burst of up to 16 bits is detected.
* **Timestamps and magics** (`Calendar`, `Timestamps`, `TextOrder`, `TimestampOrder`,
  `LocalTime`, `ZoneSpellings`, `Text`, `Grammar`, `Hex`). Packed values, the civil calendar, zone spellings, canonical text and its order.
* **Demultiplexing** (`Demux`, `Sorting`) and **correlation** (`Correlation`, `TransitionSearch`,
  `TransitionOrder`, `Blackouts`, `BlackoutSoundness`, `CorrelationReport`, `Timeline`,
  `GapAgreement`, `GapContents`). Partition and
  gap lists, the early-breaking pair search against all pairs, canonical order, exactness of the
  blackout search, and a lemma linking the two independent gap detectors.

`Wrappers`, `Arithmetic`, `Bytes` and `Records` hold what the others share.

Conventions. A digest is an arbitrary function; freedom from collisions is a hypothesis of the
lemmas that need it, on the inputs they compare. The digest state of a hasher is the bytes it was
fed. `byte` is `bv8`, words that are shifted or masked are `bv16` and `bv32`, and other integers are
unbounded, with truncation, wrap-around and signed reinterpretation written out where the code
depends on them. The read loop that the acquirer, the parser and the verifier each write out is
modelled once, as `Source.Fill`.

## Where the code does less than its description suggests

* A 3-byte start code in the last three bytes of a buffer is recorded only after a zero byte, and a
  buffer under five bytes gives no frame (`FinalStartCodeMissed`, exact in `ScanFindsExactly`).
* The classification has H.265 cases that no header byte reaches (`KeyframesExactly`).
* Verification never reads past the manifest's block count and counts missing blocks as matched
  (`TruncationCountsAsMatched`; the list shows every loss exactly when no block is missing,
  `LossesListedExactly`; the exact verdict is `PristineExactly`).
* A block carved alone may give a frame where the whole image gives none (`FrameOfBlockOnly`, exact
  in `BlockFramesInImage`).
* The interpreter bounds a payload's length but not its end (`PayloadMayLeaveBlock`, exact in
  `PayloadInsideExactly`); the parser guards the descrambling itself (`DescrambledExactly`).
* The `prev + 1` of the gap list wraps at the largest sequence number; the list is right exactly when
  that number does not occur twice (`GapsRightExactly`). The model wraps, as a build without overflow
  checks does.
* A global silence is reported only between neighbouring times of the lowest-numbered channel
  (`SilenceMissed`, exact in `SilenceReportedExactly`).
* Text order is not always time order outside the years 0 to 9999 (`OrderFailsAfter9999`, exact for
  all instants in `TextOrderExactly`).

## Model

| member | source | states |
|---|---|---|
| `Carver.KeyframesExactly` | engine/crates/recovery/src/lib.rs:94-112 | Over all 256 header bytes: nothing is ever classified as H.265, and a frame counts as a keyframe exactly when the top bit is clear and the unit type is 5 or 7 |
| `CarverClasses.ClassOfType` | engine/crates/recovery/src/lib.rs:94-112 | A header byte with a clear top bit, any reference bits and unit type t: non-IDR exactly for 1, IDR for 5, SEI for 6, SPS for 7, PPS for 8, AUD for 9, unknown for the rest |
| `CarverClasses.ForbiddenBit` | engine/crates/recovery/src/lib.rs:94-112 | A header byte with the top bit set is unknown, whatever its type bits |
| `CarverClasses.FrameDescribesType` | engine/crates/recovery/src/lib.rs:51-91 | The description, the confidence and the keyframe mark of a frame, for every unit type |
| `CarverClasses.FrameOfItsBytes` | engine/crates/recovery/src/lib.rs:144-170 | Any carved frame begins with a start code; its class is that of the byte behind it and its digest that of exactly its own bytes |
| `Carver.ScanStartCodes` | engine/crates/recovery/src/lib.rs:122-138 | The scan that jumps 3 or 4 bytes records exactly the start codes that a byte-by-byte look would record, in order: it misses none and invents none |
| `CarverTiling.ScanFindsExactly` | engine/crates/recovery/src/lib.rs:122-138 | An occurrence of `00 00 01` is recorded if and only if a byte follows it or a zero precedes it, and as the 4-byte form exactly when a zero precedes it |
| `CarverTiling.FinalStartCodeMissed` | engine/crates/recovery/src/lib.rs:125-125 | A concrete buffer whose last three bytes are a start code that is not recorded |
| `CarverTiling.ScanKeepsOrder` | engine/crates/recovery/src/lib.rs:122-138 | The recorded codes are in the order of their occurrences and each occurrence is recorded once |
| `Carver.SplitFrames` | engine/crates/recovery/src/lib.rs:144-170 | The splitting loop emits one frame per start code that has a body, from the code to the next code or the end of the buffer, in order |
| `Carver.FramesByIndex` | engine/crates/recovery/src/lib.rs:144-170 | The frames one by one: the `i`-th frame is that of the `i`-th start code with a body, with its offset, length, class and digest |
| `Carver.CarveBuffer` | engine/crates/recovery/src/lib.rs:115-173 | Carving a buffer, with the two early returns, equals the specification carve |
| `CarverTiling.FramesTileBuffer` | engine/crates/recovery/src/lib.rs:144-172 | From the first start code to the end the segments concatenate to the buffer, and frame bytes plus the bytes of start codes without a body add up to its length |
| `CarverTiling.SegmentsConcatenate` | engine/crates/recovery/src/lib.rs:144-151 | For every number of start codes: consecutive segments concatenate to the bytes they span |
| `CarverTiling.EmptySegment` | engine/crates/recovery/src/lib.rs:144-153 | A start code that gives no frame covers its own prefix bytes and nothing else |
| `CarverTiling.BytesConserved` | engine/crates/recovery/src/lib.rs:144-170 | No byte is lost or counted twice, for every prefix of the start code list |
| `CarverTiling.CarveOrdered` | engine/crates/recovery/src/lib.rs:144-172 | Frames are strictly ordered, disjoint and inside `[base, base + len)` |
| `Carver.CarveBlockAt` | engine/crates/recovery/src/lib.rs:185-197 | One seek, one read of whatever length, one carve at the block's offset; it fails exactly when the read failed |
| `Carver.CarveCorruptedBlocks` | engine/crates/recovery/src/lib.rs:176-198 | Unless a read failed, the result is the concatenation, in order, of each chosen block carved alone from the bytes its one read delivered |
| `CarverDriver.DriverCarvesChunks` | engine/crates/recovery/src/lib.rs:176-198 | The result is, in the order of the indices, the frames of each chosen block as the acquirer cut it, at index times block size, or of the part of that block the read delivered; nothing beyond the last block |
| `CarverDriver.DriverOnFullReads` | engine/crates/recovery/src/lib.rs:176-198 | With full reads every chosen block is carved whole |
| `CarverDriver.FramesLieInChosenBlocks` | engine/crates/recovery/src/lib.rs:185-197 | Every frame lies inside one of the acquired blocks that were chosen |
| `CarverTiling.CarvedBlocksOrdered` | engine/crates/recovery/src/lib.rs:185-197 | For strictly increasing block indices the whole result is ordered and without overlap, under every pattern of short reads |
| `CarverTiling.FramesStayInBlocks` | engine/crates/recovery/src/lib.rs:185-197 | Every frame lies inside one of the chosen blocks and inside the image: no frame crosses a block |
| `CarverWindow.FoundInWindow` | engine/crates/recovery/src/lib.rs:122-138 | A start code of the image is found when `[a, b)` is carved alone if and only if one following byte, or one preceding zero, is in the window |
| `CarverWindow.WindowIsRun` | engine/crates/recovery/src/lib.rs:115-197 | The start codes of a window are a contiguous run of those of the whole image, and the image's next one begins at most 3 bytes before the window ends |
| `CarverWindow.BlockFramesAgree` | engine/crates/recovery/src/lib.rs:115-197 | Every frame carved from a block alone has a whole-image start code with the same header byte, at most one byte earlier; it ends at the image's next start code if the block holds that one, else at the block end, at most 3 bytes past that place |
| `CarverBlocks.WholeFrameExactly` | engine/crates/recovery/src/lib.rs:144-170 | Carving the whole image gives a frame at a recorded start code with a byte after it if and only if no further start code begins right there; the frame then ends at the next start code |
| `CarverBlocks.BlockFramesInImage` | engine/crates/recovery/src/lib.rs:115-197 | Every block frame against the frames of the whole image: there is one at its start code if and only if the body does not begin with another start code, and then both have the same class, start up to a zero byte before the block, and end up to the block's end, at most 3 bytes past |
| `CarverBlocks.FrameOfBlockOnly` | engine/crates/recovery/src/lib.rs:144-154 | A concrete image and block where the block gives a frame and the whole image gives none at that start code |
| `CarverRoundTrip.ScanInvertsStream` | engine/crates/recovery/src/lib.rs:122-138 | After clean noise, the start codes recorded in an Annex B stream are exactly the prefixes that were written, with their positions and lengths (ITU-T H.264, section 7.4.1) |
| `CarverRoundTrip.CarveInvertsStream` | engine/crates/recovery/src/lib.rs:115-173 | Round trip: a stream of at least 5 bytes carves to exactly one frame per NAL unit with its offset, length, class and bytes' digest; a shorter one carves to nothing |
| `CarverClasses.UnitCarvesAsWritten` | engine/crates/recovery/src/lib.rs:115-173 | The frame of each written unit: its place, its length, the digest of its prefix and body, and the class, description and confidence of its unit type |
| `Source.ReadOnlySource.Read` | engine/crates/acquisition/src/source.rs:97-101 | A read delivers any number of bytes from one up to the request, the next ones of the source; none only at the end or for an empty request; or it fails and delivers nothing |
| `Source.Fill` | engine/crates/acquisition/src/block_stream.rs:90-105 | Whatever the short reads, the loop delivers the next `min(buffer, rest)` bytes, and it fails exactly when a read failed |
| `Chunking.ChunksCover` | engine/crates/acquisition/src/block_stream.rs:113-114 | The blocks of an image concatenate to the image |
| `Chunking.ChunkCount` | engine/crates/acquisition/src/block_stream.rs:150-153 | The number of blocks is the length divided by the block size, rounded up |
| `Chunking.ChunkAt` | engine/crates/acquisition/src/block_stream.rs:113-114 | Block `i` is the bytes from `i * size` to the next multiple or to the end |
| `Chunking.ChunksAppend` | engine/crates/acquisition/src/block_stream.rs:88-145 | Cutting batch by batch, at multiples of the block size, gives the blocks of the plain cut |
| `Acquisition.UpdateHasher` | engine/crates/acquisition/src/block_stream.rs:117-120 | Feeding a hasher chunk by chunk feeds it the concatenation |
| `Acquisition.HashBatch` | engine/crates/acquisition/src/block_stream.rs:113-138 | One batch extends the two streamed digests and the two hash lists from a prefix of the image to the longer prefix |
| `Acquisition.StreamAndHash` | engine/crates/acquisition/src/block_stream.rs:61-159 | For every block size, batch size (0 means 64) and pattern of short reads the batched reader returns what the simple reader returns and stops at the end of the image; it fails exactly when a read failed, reporting the offset reached |
| `Acquisition.AcquiredBlocks` | engine/crates/acquisition/src/block_stream.rs:84-158 | The result counts all bytes, `ceil(len / size)` blocks, and lists the two digests of each block's own bytes |
| `CaseParser.ParseOne` | engine/crates/parser/src/lib.rs:172-206 | The loop body, with its nested conditions, is interpretation followed by guarded descrambling, or the interpreter's error |
| `CaseParser.ParseCase` | engine/crates/parser/src/lib.rs:150-212 | For every pattern of short reads the records are those of the plain cut of the image, or the first error of a block; a read failure is the only other outcome |
| `Verification.CheckBlocks` | engine/crates/parser/src/verify.rs:103-149 | The block loop reads back at most the manifest's block count, feeds the whole-image hashers those bytes, and lists the discrepancies of the hashes |
| `Verification.CheckRecords` | engine/crates/parser/src/verify.rs:175-205 | The cross-check of the stored records: a record whose digest differs, or whose block does not exist, gives one entry, in the order of the records |
| `Verification.VerifyCaseIntegrity` | engine/crates/parser/src/verify.rs:102-239 | For every pattern of short reads the report is that of the plain cut; the call fails exactly when a read failed |
| `ReportContents.DiscrepancyContents` | engine/crates/parser/src/verify.rs:132-145 | Each listed block carries its offset, the acquired digest as expected and the digest of what is there as actual |
| `ReportContents.DbEntriesExactly` | engine/crates/parser/src/verify.rs:181-201 | One entry per record at fault, in their order, naming its block and offset and what was recorded against what is there, or that the block does not exist |
| `ReportContents.VerdictExactly` | engine/crates/parser/src/verify.rs:151-228 | The reported digests are those of the bytes read back, and the verdict is pristine if and only if both agree and neither list has an entry |
| `TamperLocalisation.DiscrepanciesExact` | engine/crates/parser/src/verify.rs:135-145 | The list holds exactly the block indices whose digests differ, increasing, each with offset index times block size |
| `TamperLocalisation.TamperingLocalised` | engine/crates/parser/src/verify.rs:114-157 | For an image of the acquired length and no digest collision, the report lists exactly the altered blocks in increasing order, and matched plus discrepancies is the total |
| `TamperLocalisation.PristineExactly` | engine/crates/parser/src/verify.rs:207-210 | Without a database, and for an image of any length: the verdict is pristine if and only if the image is the acquired one, or that one, a whole number of blocks long, with anything appended |
| `TamperLocalisation.PristineIffUnchanged` | engine/crates/parser/src/verify.rs:207-210 | For an image of the acquired length the verdict is pristine if and only if no byte differs |
| `TamperLocalisation.FaithfulReadBack` | engine/crates/parser/src/verify.rs:151-210 | If the acquired blocks are read back, only stored records can make the verdict other than pristine |
| `TamperLocalisation.BlockReportExactly` | engine/crates/parser/src/verify.rs:114-157 | For an image of any length and no digest collision: the list holds, in order, exactly the blocks that are present and changed, and matched is the number of intact blocks plus the number of missing ones |
| `TamperLocalisation.LossesListedExactly` | engine/crates/parser/src/verify.rs:114-157 | The list shows every block that is changed or missing, and matched counts only intact blocks, if and only if the image has at least as many blocks as were acquired |
| `TamperLocalisation.TruncationCountsAsMatched` | engine/crates/parser/src/verify.rs:114-157 | An image cut at any byte: the missing blocks are counted as matched, and only a block that the cut leaves shorter is listed |
| `TamperLocalisation.CutBetweenBlocksUnseen` | engine/crates/parser/src/verify.rs:114-157 | For a cut between two blocks nothing is listed and all blocks count as matched, whatever the digest |
| `ReaderAgreement.ParseSucceedsExactly` | engine/crates/parser/src/lib.rs:154-212 | Parsing what was acquired succeeds if and only if the image is empty, or the grammar's magic decodes and the last block can hold a header; the records then carry every block's index, offset and digest |
| `ReaderAgreement.ReadersAgree` | engine/crates/parser/src/verify.rs:175-210 | Acquire, parse any number of times into one record list, verify unchanged: no block and no record discrepancy, every block matched, pristine |
| `ReaderAgreement.TamperedRecordsFlagged` | engine/crates/parser/src/verify.rs:181-201 | After tampering the stored records flag exactly the blocks that the manifest flags, the altered ones |
| `PayloadGuard.PayloadBounds` | engine/crates/parser/src/interpreter.rs:197-201 | A video payload starts at the grammar's offset and is no longer than the block unless it has the default length |
| `PayloadGuard.PayloadInsideExactly` | engine/crates/parser/src/interpreter.rs:77-239 | For every grammar and block: the payload of the record lies inside its block if and only if the block is a superblock or partition table, or the grammar's payload offset plus the last declared length from 1 to the block's length (or the default) does not exceed the block |
| `PayloadGuard.SyntheticPayloadInside` | engine/crates/parser/src/interpreter.rs:197-201 | For every video block of the synthetic format: the payload lies inside exactly when the declared length leaves room for the 32-byte header |
| `PayloadGuard.PayloadMayLeaveBlock` | engine/crates/parser/src/interpreter.rs:197-201 | A concrete 4096-byte block of the synthetic format whose header declares 4096 payload bytes: the payload ends outside the block |
| `PayloadGuard.DescrambledExactly` | engine/crates/parser/src/lib.rs:184-206 | With the XOR plugin, exactly the scrambled, nonempty payloads that end inside their block are descrambled, and the recorded digest is that of the plain bytes |
| `Descrambler.XorInvolution` | plugins/c4_xor_descrambler/src/lib.rs:28-33 | Scrambling and descrambling are one operation that undoes itself, on every byte string |
| `DiskContents.ScrambledByte` | plugins/c4_xor_descrambler/src/lib.rs:28-33 | Byte i is combined with D4, A8, 7E or 31, in turn from the first byte |
| `DiskContents.KeyText` | engine/crates/dvrft-gen/src/main.rs:308-312 | The key that the ground truth writes in hex is the key that scrambles |
| `Descrambler.Descramble` | plugins/c4_xor_descrambler/src/lib.rs:22-36 | In place, every byte is combined with the key byte of its index modulo 4; an empty slice is an error and nothing else is |
| `Descrambler.RunXorPlugin` | engine/crates/sandbox/src/lib.rs:140-207 | Copying in, running the routine and copying out gives the descrambled bytes, or an error for an empty payload |
| `Generator.GenerateDeterministicPayload` | engine/crates/dvrft-gen/src/main.rs:107-130 | The in-place loop writes the start code, the NAL byte of the frame kind, and the pseudo-random bytes of the seed |
| `DiskContents.SeedOfChannel` | engine/crates/dvrft-gen/src/main.rs:118-122 | The channel flips one bit of the generator's step of the sequence number: bit 32 for channel 1 and bit 33 for channel 2 |
| `DiskContents.FirstRandomBytes` | engine/crates/dvrft-gen/src/main.rs:107-130 | The first payload of channel 1 begins 00 00 00 01 67 F0 C1 |
| `Generator.BuildSuperblock` | engine/crates/dvrft-gen/src/main.rs:155-164 | The in-place writes give the superblock's bytes, the rest zero |
| `Generator.BuildPartitionTable` | engine/crates/dvrft-gen/src/main.rs:184-205 | The in-place writes give the partition table's bytes, the rest zero |
| `DiskContents.SuperblockReadsBack` | grammars/synthetic-v1.yaml:28-59 | The superblock, read by the fields that the grammar gives it: version 1, block size 4096, the block count, the table's offset and count, the base timestamp |
| `DiskContents.PartitionReadsBack` | grammars/synthetic-v1.yaml:61-93 | Both entries of the partition table, read by the grammar's fields: channel, name, first block 2, half of the video blocks, active |
| `Generator.BuildHeader` | engine/crates/dvrft-gen/src/main.rs:276-287 | The in-place writes give the header's bytes, with the checksum of the first 26 |
| `DiskContents.ChecksumStands` | engine/crates/dvrft-gen/src/main.rs:285-287 | Bytes 26 and 27 of a written header are the checksum of the first 26, low byte first, and zeros follow |
| `Generator.Scramble` | engine/crates/dvrft-gen/src/main.rs:267-272 | The scrambling loop is the keyed XOR of the payload |
| `Generator.BuildVideoBlock` | engine/crates/dvrft-gen/src/main.rs:250-295 | Flags, header, scrambled payload and the zeroed header of the corrupted region, as one block; the original payload is kept apart |
| `Generator.GenerateBlock` | engine/crates/dvrft-gen/src/main.rs:240-322 | The loop body gives the disk block and its ground truth |
| `Generator.Generate` | engine/crates/dvrft-gen/src/main.rs:132-322 | Fewer than 32 blocks is an error; otherwise the two counters give block `b` sequence number `b / 2`, and disk and ground truth are, block by block, those of the specification |
| `Interpreter.ParseVideoBlock` | engine/crates/parser/src/interpreter.rs:162-239 | The field loop computes the record of the fields applied in order, a later field overriding an earlier one |
| `Interpreter.RecordKeepsProvenance` | engine/crates/parser/src/interpreter.rs:54-239 | Interpretation succeeds exactly when the block can hold a header and the magic decodes; the record then carries the block's index, offset and digest and is not yet descrambled |
| `InterpreterContents.KindExactly` | engine/crates/parser/src/interpreter.rs:54-160 | The errors and what they report, and the kind of any other block: the video magic decides first, then the superblock's, then the partition table's |
| `InterpreterContents.OtherBlocks` | engine/crates/parser/src/interpreter.rs:86-156 | A block that is no video block has no camera, time, sequence or flags, the epoch's text, and a payload of fixed place and length |
| `InterpreterContents.ReadsBigEndian` | engine/crates/parser/src/interpreter.rs:358-421 | A big-endian field reads the integer written most significant byte first |
| `InterpreterContents.ReadsLittleEndian` | engine/crates/parser/src/interpreter.rs:360-360 | A field of any other stated order, or of none, reads little-endian |
| `InterpreterContents.ReadsZero` | engine/crates/parser/src/interpreter.rs:363-419 | A field that ends outside the block or is of no integer type reads as zero |
| `InterpreterContents.FlagsWithoutMasks` | engine/crates/parser/src/interpreter.rs:202-216 | Without masks, bit 1 of the flags means scrambled and bit 2 corrupted |
| `InterpreterContents.FlagsWithMasks` | engine/crates/parser/src/interpreter.rs:202-216 | With masks, each named mask decides its own mark and a missing one leaves it alone |
| `InterpreterContents.MaskOfBits` | engine/crates/parser/src/interpreter.rs:205-210 | A mask of several bits asks for any of them |
| `InterpreterContents.OtherRoles` | engine/crates/parser/src/interpreter.rs:183-196 | Channels and sequence numbers keep their low 32 bits and touch nothing else |
| `Bytes.LittleEndianRoundTrip` | engine/crates/parser/src/interpreter.rs:369-418 | Writing an integer in little-endian bytes and reading it back keeps it modulo the width |
| `SyntheticFormat.ReadsWritten` | engine/crates/parser/src/interpreter.rs:358-421 | A field reads the integer that was written at its offset, whatever surrounds it |
| `SyntheticFormat.HeaderReadsBack` | engine/crates/parser/src/interpreter.rs:358-421 | All header fields of a written block read back as written |
| `SyntheticFormat.FlagsReadBack` | engine/crates/parser/src/interpreter.rs:203-216 | The scrambled and corrupted bits read back through the grammar's masks say what the generator meant |
| `SyntheticFormat.FieldsReadBack` | engine/crates/parser/src/interpreter.rs:179-219 | Running the field loop of the grammar over a written block gives the fields it was written from |
| `SyntheticFormat.InterpretsVideoBlock` | engine/crates/parser/src/interpreter.rs:54-239 | Interpreting a written block returns channel, timestamp, its UTC text, sequence, payload bounds and flags as written |
| `SyntheticFormat.InterpretsZeroedHeader` | engine/crates/parser/src/interpreter.rs:138-156 | Any block that begins with a zero byte is reported as unallocated or corrupted, with the default payload |
| `SyntheticFormat.InterpretsFrontBlock` | engine/crates/parser/src/interpreter.rs:77-134 | Any block that begins with the superblock's, or the partition table's, magic is reported as that |
| `SyntheticFormat.VideoMagic` | grammars/synthetic-v1.yaml:98-101 | The grammar's hex magic is the generator's |
| `GeneratedDisk.DiskIsCut` | engine/crates/dvrft-gen/src/main.rs:228-298 | Cutting the generated disk at the block size returns the blocks that were written |
| `GeneratedDisk.PayloadDescrambles` | plugins/c4_xor_descrambler/src/lib.rs:28-33 | The scrambled payload on disk, run through the plugin, is the original payload |
| `GeneratedDisk.BlockParses` | engine/crates/parser/src/lib.rs:172-206 | For every block of every disk: hashing, interpreting and descrambling gives the record expected from what was written there |
| `GeneratedDisk.DiskParses` | engine/crates/parser/src/lib.rs:154-212 | For every block count from 32 and every base timestamp: parsing an acquired generated disk gives one expected record per block |
| `GeneratedDisk.RecordsAgreeWithTruth` | engine/crates/dvrft-gen/src/main.rs:300-321 | Every record agrees with the ground truth of its block in index, offset, block digest, kind, corruption and scrambling, and for scrambled blocks in the digest of the original payload; video records also agree in channel, timestamp, sequence and payload bounds |
| `GeneratedDisk.FieldsAgreeExactly` | engine/crates/dvrft-gen/src/main.rs:300-321 | For which blocks the header fields are those of the truth: channel and sequence unless the header was zeroed, the timestamp also not in the front blocks unless the base is 0, the length everywhere but in the front blocks |
| `DiskContents.VideoRecordTable` | engine/crates/dvrft-gen/src/main.rs:228-295 | The record of every video block with a header, value by value: place, channel, timestamp, sequence, payload, scrambling, keyframe mark and digest |
| `DiskContents.VideoRecordText` | engine/crates/parser/src/interpreter.rs:338-343 | Its text is that of its timestamp in UTC |
| `DiskContents.TruthDescribesDisk` | engine/crates/dvrft-gen/src/main.rs:300-321 | The ground truth of a video block against the bytes on the disk: digests of the block and of the payload before scrambling, which blocks are scrambled or zeroed, key and corruption text |
| `DiskContents.TruthOfFront` | engine/crates/dvrft-gen/src/main.rs:166-220 | The ground truth of the two front blocks |
| `GeneratedDisk.GapIsEleven` | engine/crates/parser/src/demux.rs:39-50 | For every generated disk both channels, and only those, have a stream, and its only missing sequence number is 11 |
| `GeneratedDisk.DiskIsUsable` | engine/crates/dvrft-gen/src/main.rs:228-298 | For every generated disk below the signed time range the records with a time are exactly the usable ones, as the agreement of the gap detectors asks |
| `GeneratedDisk.FirstFrameAfterZeroedHeader` | engine/crates/recovery/src/lib.rs:115-173 | 32 zero bytes, a 4-byte start code and a nonzero header byte, then anything: the first carved frame starts at offset 32 with that header's class |
| `DiskCarving.DriverOnZeroedBlocks` | engine/crates/recovery/src/lib.rs:176-198 | The driver on blocks 22 and 23 of any generated disk, for all reads of at least 37 bytes: the first frames are the keyframes at 22 and 23 times 4096 plus 32 |
| `DiskCarving.VideoBlockCarves` | engine/crates/recovery/src/lib.rs:115-173 | Every unscrambled video block of a disk carves to a frame at its offset plus 32: an SPS keyframe for every tenth sequence number, else a non-IDR slice |
| `GeneratedDisk.ZeroedBlockCarves` | engine/crates/recovery/src/lib.rs:115-173 | In both zeroed-header blocks of every generated disk the first carved frame is the keyframe at block offset + 32 |
| `HeaderCrc.ShiftEightTimes` | engine/crates/dvrft-gen/src/main.rs:95-101 | The inner loop is eight register shifts |
| `HeaderCrc.ComputeHeaderCrc` | engine/crates/dvrft-gen/src/main.rs:91-104 | The two loops compute the remainder of long division, bit by bit, of a fixed prefix, the message and 16 zero bits by the generator polynomial |
| `HeaderCrc.CrcIsRemainder` | engine/crates/dvrft-gen/src/main.rs:91-104 | The byte-wise register equals the bit-wise polynomial remainder, for messages of every length |
| `HeaderCrc.UndetectedExactly` | engine/crates/dvrft-gen/src/main.rs:91-104 | Two messages of one length have the same checksum if and only if the generator divides the pattern of their differences |
| `HeaderCrc.BurstDetected` | engine/crates/dvrft-gen/src/main.rs:91-104 | Every error burst of at most 16 consecutive bits, in messages of any length, changes the checksum |
| `HeaderCrc.AdjacentBytesDetected` | engine/crates/dvrft-gen/src/main.rs:91-104 | Messages that differ only within two adjacent bytes have different checksums |
| `Calendar.DayNumberMonotone` | engine/crates/parser/src/interpreter.rs:307-312 | Later dates have larger day numbers and only they; equal day numbers mean equal dates |
| `Calendar.EpochIsDayZero` | engine/crates/parser/src/interpreter.rs:316-318 | Day numbers count from 1970-01-01 |
| `Calendar.MonthTable` | engine/crates/parser/src/interpreter.rs:307-307 | Which dates exist: 30 days in four months, 28 or 29 in February by the leap rule, else 31 |
| `Calendar.DateOf` | engine/crates/parser/src/interpreter.rs:316-318 | The date of every day number is a valid date with that day number |
| `Calendar.DateOfDayNumber` | engine/crates/parser/src/interpreter.rs:307-312 | The date of a date's day number is that date |
| `Timestamps.ParseTimezoneOffset` | engine/crates/parser/src/interpreter.rs:248-276 | Whatever the text, the offset is less than a day either way; an absent zone and every text without a digit mean UTC |
| `ZoneSpellings.SpellingsAgree` | engine/crates/parser/src/interpreter.rs:248-276 | `+HH:MM`, `+HHMM` and, for whole hours, `+HH` parse to the same offset, both signs, for all two-digit numbers: to those hours and minutes if they make less than a day, else to none |
| `ZoneSpellings.HoursOnly` | engine/crates/parser/src/interpreter.rs:270-275 | A single number, other than of four digits: so many hours with either sign, none if it exceeds 31 bits; the seconds wrap at 32 bits, and a day or more either way counts as none |
| `ZoneSpellings.SpaceIgnored` | engine/crates/parser/src/interpreter.rs:249-252 | White space around a zone text changes nothing |
| `TimestampOrder.UnpackInvertsPack` | engine/crates/parser/src/interpreter.rs:300-305 | Decoding the bit fields inverts packing |
| `TimestampOrder.PackInvertsUnpack` | engine/crates/parser/src/interpreter.rs:300-305 | Packing inverts decoding on every 32-bit value |
| `TimestampOrder.NormalizePacked` | engine/crates/parser/src/interpreter.rs:292-314 | A packed value that decodes to a valid time becomes the UTC text of its instant under the offset |
| `LocalTime.PackedLocalReading` | engine/crates/parser/src/interpreter.rs:292-314 | The text of a packed value is that of the instant at which the zone's clock, the instant plus the offset, shows the packed date, hour, minute and second |
| `LocalTime.UnixLocalReading` | engine/crates/parser/src/interpreter.rs:338-354 | A count of seconds, in a missing or any other encoding: the text is that of the instant at which the zone's clock shows so many seconds, or the fallback if the reading or the instant is outside the calendar |
| `LocalTime.MillisLocalReading` | engine/crates/parser/src/interpreter.rs:320-337 | A count of milliseconds: likewise for its whole seconds |
| `LocalTime.InvalidPackedIsUnix` | engine/crates/parser/src/interpreter.rs:316-319 | An invalid packed value is read as seconds of UTC whatever the zone |
| `LocalTime.ZeroIsEpoch` | engine/crates/parser/src/interpreter.rs:284-286 | A raw value of zero gives the fallback text in every encoding and zone |
| `LocalTime.EastOfUtc` | engine/crates/parser/src/interpreter.rs:292-314 | A packed 2024-01-15 10:00:00 in the zone +08:00 is the instant 1705284000, two o'clock in UTC |
| `LocalTime.TextReadsBack` | engine/crates/parser/src/interpreter.rs:338-343 | The text of an instant of the years 0 to 9999, read digit by digit: the date of its day, its clock time, and the separators |
| `LocalTime.RepresentableExactly` | engine/crates/parser/src/interpreter.rs:341-343 | The instants that get their own text are those of the years -262143 to 262142 |
| `TimestampOrder.PackedOrder` | engine/crates/parser/src/interpreter.rs:292-314 | Of two such values in one zone, the smaller is the earlier instant and has the lexicographically smaller text |
| `TextOrder.TextOrderIsTimeOrder` | engine/crates/parser/src/interpreter.rs:338-343 | Between instants of the years 0 to 9999 text order is time order (section 5.1 of RFC 3339) |
| `TextOrder.TextOrderBreaksAtFiveDigits` | engine/crates/parser/src/interpreter.rs:338-343 | Every instant after the year 9999 has a smaller text than every instant of the years 0 to 9999 |
| `TextOrder.OrderFailsAfter9999` | engine/crates/parser/src/interpreter.rs:338-343 | The last second of the year 9999 and the next one, both representable, have texts in the wrong order |
| `TextOrder.TextOrderExactly` | engine/crates/parser/src/interpreter.rs:338-343 | For all instants: the later one has the larger text if and only if both are of one year, or the later year is in 0 to 9999, or both are later and the digits of the earlier year do not exceed as many first digits of the later, or both are negative and the first digits of the earlier year are below those of the later |
| `TextOrder.EpochText` | engine/crates/parser/src/interpreter.rs:284-286 | The text of the instant 0 is the fallback text |
| `Grammar.ReadEscape` | engine/crates/parser/src/ast.rs:172-193 | The inner match on an escape sequence yields its bytes and consumes its characters, malformed sequences included |
| `Grammar.UnescapeAscii` | engine/crates/parser/src/ast.rs:168-200 | The one-cursor loop computes the unescaped bytes of the text |
| `Grammar.EscapeRoundTrip` | engine/crates/parser/src/ast.rs:168-200 | For every byte string, writing printable ASCII other than backslash literally and all else as `\xHH`, then unescaping, returns it |
| `Grammar.EscapeTable` | engine/crates/parser/src/ast.rs:174-193 | What each named escape, an unknown one and a lone backslash stand for |
| `Grammar.HexEscapes` | engine/crates/parser/src/ast.rs:175-182 | A hex escape cut short is filled with zeros, may carry a plus sign, and is dropped if malformed |
| `Grammar.NoMagicBytes` | engine/crates/parser/src/ast.rs:63-75 | A magic without either form, or with text that is not hex, is an error even if the other form is there |
| `Grammar.MagicFormsAgree` | engine/crates/parser/src/ast.rs:63-75 | The escaped form and the hex form of a byte string denote the same bytes, in magics and in detection rules |
| `Hex.RoundTrip` | engine/crates/parser/src/ast.rs:138-150 | Decoding the hex text of a byte string returns it |
| `Hex.DigestsCompare` | engine/crates/parser/src/verify.rs:154-155 | Hex digests are equal, with or without regard to letter case, exactly when the digests are |
| `Demux.FillBuckets` | engine/crates/parser/src/demux.rs:17-26 | One bucket per camera channel, holding its records in their order |
| `Demux.SequenceGaps` | engine/crates/parser/src/demux.rs:39-50 | The loop that carries the last number lists what lies between neighbours of the sorted stream, with `prev + 1` on 32 bits |
| `Demux.DemuxRecords` | engine/crates/parser/src/demux.rs:16-66 | Buckets, in-place sort, bounds and gaps give the streams of the specification |
| `Demux.StreamsPartition` | engine/crates/parser/src/demux.rs:17-32 | Every record of a camera is in the stream of its channel as often as it occurs, nothing else is kept, and each stream is sorted |
| `Demux.GapsExact` | engine/crates/parser/src/demux.rs:39-50 | Without a repeated largest number, the gap list is increasing and holds exactly the absent numbers, for every prefix of a stream |
| `Demux.GapsRightExactly` | engine/crates/parser/src/demux.rs:39-50 | The gap list of a sorted stream is right if and only if the number 0xFFFFFFFF does not occur twice in it |
| `Demux.GapsAndNumbersFillSpan` | engine/crates/parser/src/demux.rs:39-50 | Gaps plus distinct sequence numbers is maximum minus minimum plus one |
| `Demux.StreamGapsRight` | engine/crates/parser/src/demux.rs:28-62 | Every stream is nonempty and in sequence order, and its gap list is right exactly under that condition |
| `Demux.TimestampBounds` | engine/crates/parser/src/demux.rs:35-36 | The stream's bounds are the least and the greatest of its timestamps |
| `Demux.StreamBounds` | engine/crates/parser/src/demux.rs:19-63 | There is a stream for exactly the nonzero channels that occur, and its minTimestamp and maxTimestamp are the least and the greatest timestamp of the channel's records, both reached |
| `Demux.StreamOrder` | engine/crates/parser/src/demux.rs:32-32 | A stream is in the order of sequence number, and of timestamp where it repeats |
| `GeneratedDisk.DiskStreamBounds` | engine/crates/parser/src/demux.rs:28-62 | The streams of every generated disk begin with blocks 2 and 3 and end with the channel's last block, in time |
| `Sorting.SortSorted` | engine/crates/correlation/src/lib.rs:80-86 | The stable sort returns a sorted list for every total order |
| `Sorting.SortElements` | engine/crates/correlation/src/lib.rs:80-86 | It returns the same elements, each as often |
| `Sorting.SortIsStable` | engine/crates/parser/src/demux.rs:32-32 | Elements that compare equal keep their order |
| `Correlation.MergeIsSortedPermutation` | engine/crates/correlation/src/lib.rs:78-105 | The merged timeline is a sorted permutation of the records, numbered 1 to n, and chronological |
| `Correlation.TimelineTies` | engine/crates/correlation/src/lib.rs:80-86 | The timeline is in the order of time, channel, sequence number and block index |
| `Correlation.InputOfRecord` | engine/crates/parser/src/interpreter.rs:27-41 | A stored record as the correlation takes it, field by field; the lowest flag bit marks a keyframe |
| `Correlation.MergeIsCanonical` | engine/crates/correlation/src/lib.rs:78-105 | With distinct block indices it is the same for every reordering of the records |
| `Correlation.FilterValid` | engine/crates/correlation/src/lib.rs:118-121 | The filter keeps exactly the uncorrupted events of camera channels, in order |
| `Correlation.SearchRow` | engine/crates/correlation/src/lib.rs:123-165 | The inner loop with its early break finds what the full row of pairs holds, even where the 64-bit difference wraps when taken as signed |
| `Correlation.DeduplicateTransitions` | engine/crates/correlation/src/lib.rs:167-175 | The seen-set loop keeps the first transition of each key |
| `Correlation.DetectTransitions` | engine/crates/correlation/src/lib.rs:108-178 | The early-breaking double loop equals the search over all pairs followed by deduplication |
| `TransitionSearch.TransitionsExact` | engine/crates/correlation/src/lib.rs:117-177 | The keys found are exactly those of valid event pairs on different channels with `0 < delta <= window`, each once, and every transition reported stems from such a pair |
| `TransitionOrder.TransitionMadeFrom` | engine/crates/correlation/src/lib.rs:123-165 | Every reported transition is that of two positions of the timeline, of uncorrupted events of two cameras within the window: channels, timestamps, texts and block indices are those of the first and the second, and the delta is the difference of the times |
| `TransitionOrder.TransitionsInOrder` | engine/crates/correlation/src/lib.rs:123-175 | The transitions are in timeline order, by the first event and then by the second |
| `TransitionOrder.FirstPairReported` | engine/crates/correlation/src/lib.rs:167-175 | Among the pairs of one key, the reported one is the first in timeline order |
| `TransitionSearch.DeduplicateExact` | engine/crates/correlation/src/lib.rs:167-175 | Deduplication keeps the set of keys, leaves each once and adds nothing |
| `TransitionSearch.TransitionsCanonical` | engine/crates/correlation/src/lib.rs:108-178 | With distinct block indices the transition list is the same for every reordering of the records |
| `Blackouts.GroupTimes` | engine/crates/correlation/src/lib.rs:190-203 | The channel map holds the times of each channel with usable records, its keys in increasing order |
| `Blackouts.AllOthersSilent` | engine/crates/correlation/src/lib.rs:223-237 | The loop with its early exit decides whether no other channel recorded inside the gap |
| `Blackouts.SearchGaps` | engine/crates/correlation/src/lib.rs:214-256 | The loop over neighbouring times of the lowest channel reports exactly the gaps of the specification |
| `Blackouts.DetectGlobalBlackouts` | engine/crates/correlation/src/lib.rs:181-259 | The whole search, with its early returns, equals the specification |
| `BlackoutSoundness.BlackoutsExact` | engine/crates/correlation/src/lib.rs:211-256 | A blackout is reported if and only if it is a gap of the lowest channel of at least the minimum, in which no usable record of any channel lies strictly between `s + 1` and `e - 1` |
| `GapContents.BlackoutContents` | engine/crates/correlation/src/lib.rs:205-251 | A reported blackout carries times and texts of usable records of the lowest camera, its length, its severity from 60 seconds on, and all cameras in order; no usable record lies more than a second inside |
| `GapContents.GapIsReported` | engine/crates/correlation/src/lib.rs:211-256 | Every gap between two neighbouring times of the lowest camera, of at least the minimum and below 2^63 seconds, is reported if no uncorrupted record of any camera lies more than a second inside |
| `BlackoutSoundness.SilenceOfAll` | engine/crates/correlation/src/lib.rs:223-237 | In a gap of the lowest channel, the other channels are silent exactly when all are |
| `BlackoutSoundness.BlackoutsDisjoint` | engine/crates/correlation/src/lib.rs:214-256 | The reported intervals are ordered and do not overlap, and their durations add up to no more than the recording |
| `BlackoutSoundness.SilenceMissed` | engine/crates/correlation/src/lib.rs:211-221 | Three records with a long silence that is not reported |
| `BlackoutSoundness.SilenceReportedExactly` | engine/crates/correlation/src/lib.rs:211-256 | A long enough silence is reported if and only if it begins and ends with a time of the lowest channel and holds no other time of it |
| `CorrelationReport.GenerateCorrelationReport` | engine/crates/correlation/src/lib.rs:262-303 | The report's parts, channel list and time bounds are those of the specification |
| `CorrelationReport.CameraChannelsExact` | engine/crates/correlation/src/lib.rs:271-277 | The channel list is increasing and holds exactly the nonzero channels, corrupted records included |
| `CorrelationReport.TimeBounds` | engine/crates/correlation/src/lib.rs:279-287 | The first and last event give the least and the greatest timestamp of the records, with the text of such a record |
| `CorrelationReport.ReportCounts` | engine/crates/correlation/src/lib.rs:279-302 | The report counts all records and events, and without any its bounds are the epoch's time and text |
| `CorrelationReport.TransitionsFit` | engine/crates/correlation/src/lib.rs:267-302 | Every transition of a report joins two of its active channels, in order, within its time bounds |
| `CorrelationReport.BlackoutsFit` | engine/crates/correlation/src/lib.rs:267-302 | Every blackout of a report affects only its active channels and lies within its time bounds |
| `Timeline.CollectEntries` | engine/crates/reporting/src/timeline.rs:37-135 | The four loops push one entry per record, carved frame, event and relevant detection, in that order |
| `Timeline.EntriesExactly` | engine/crates/reporting/src/timeline.rs:37-135 | The list has one entry per record, carved frame and event and per detection of relevance at least 0.50, and an entry is in it if and only if it shows one of these, field by field |
| `Timeline.TimelineIsSorted` | engine/crates/reporting/src/timeline.rs:137-145 | The timeline holds every entry once, by time and then text; after the entries without a time comes none with one, short of the largest 64-bit time |
| `Timeline.TextLeqIsLexicographic` | engine/crates/reporting/src/timeline.rs:142-142 | The tie order of texts is the lexicographic one, a proper prefix first |
| `Timeline.FilterTimed` | engine/crates/reporting/src/timeline.rs:148-148 | The records that carry a time, in order |
| `Timeline.CollectAlerts` | engine/crates/reporting/src/timeline.rs:151-179 | The loop over windows of two raises the alerts of the pairs that are too far apart |
| `Timeline.ReconstructTimeline` | engine/crates/reporting/src/timeline.rs:27-182 | Timeline and alerts are those of the specification |
| `GapAgreement.AlertsExact` | engine/crates/reporting/src/timeline.rs:151-179 | An alert is raised exactly for the neighbours, in time order, whose distance exceeds the expected gap |
| `GapContents.AlertsExactly` | engine/crates/reporting/src/timeline.rs:148-179 | One alert per two neighbours in time order that are too far apart, in their order, with their texts, channels, distance and severity |
| `GapAgreement.DetectorsAgree` | engine/crates/reporting/src/timeline.rs:148-179 | The two gap detectors agree: if the records with a time are exactly the usable ones, a blackout of length g with g - 2 above the expected gap overlaps exactly one alert, whose length is between g - 2 and g |

## Left out

- Opening files and devices, path resolution, manifest JSON and YAML loading: the models take bytes, a manifest and a grammar value; the grammar of the synthetic format is a constant transcribed from its file.
- SQLite storage and the audit log: the case database is absent, unreadable, or a list of records.
- The WebAssembly host's memory and time limits, and guest allocation: `Descrambler.RunXorPlugin` copies in, runs the routine and copies out.
- SHA-256, MD5 and BLAKE3 internals and the parallel map: digests are arbitrary functions, and the map keeps the order of its input.
- The calendar library: replaced by the proleptic Gregorian calendar over the years -262143 to 262142.
- Signature identification and grammar selection: table look-ups with one-branch checks.
- Transition confidence, analytics scores and bounding boxes: floating-point heuristics; transitions keep their integer parts.
- Description and summary texts, details JSON, file names and audit times in reports, and the counters of a parse summary.
- User interface, command line, PDF certificate, Markdown report and video export: presentation and external processes.
- Generator.Generate: sequence counters and timestamps are unbounded here; `GeneratedDisk` states the absence of overflow where the written fields must read back.
- Carver.CarveCorruptedBlocks: byte offsets are unbounded, so overflow of index times block size is not modelled.
- Acquisition.StreamAndHash: the product of batch size and block size is unbounded, and memory exhaustion is not modelled.
- Timestamps.ParseTimezoneOffset: the length test and the slices of the four-character form count characters, so zone texts outside ASCII are not modelled byte for byte; the arithmetic wraps at 32 bits.
- Carver.CarvedFrame: the type text, keyframe flag and confidence are functions of the stored classification rather than fields.
- The sort of a bucket, of the timeline and of the times of a channel: the library's stable sort is the function `Sorting.Sort`, not an in-place array algorithm.
