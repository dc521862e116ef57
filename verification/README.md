# drbd-utils: a model of its metadata engine and of some of its list and text algorithms

DRBD keeps, next to the data of a device, a superblock, an activity log and a bitmap with one slot per peer. `drbdmeta`
computes where these lie, moves them when the device grew, dumps and restores the bitmap, replays the log and marks what
it says as out of sync. The modules here model that code and prove what it guarantees, together with the second reader
of the dump (`drbd-verify.py`), the netlink attributes (`libnla`), the glob patterns of `drbdmon`, and the volume merge
and the command scheduler of `drbdadm`.

Code that works by assignment is modelled by methods with loops over arrays, buffers and linked objects; each is tied to
functions of its inputs or of the old state, and the theorems are lemmas about these functions.

| file | subject |
|---|---|
| `Arith`, `Wrappers`, `Word32`, `BitmapBuffer`, `BlockDevice` | rounding and integer conversions; optional results; 32-bit words by their bits; the I/O buffer; a device that remembers the image after every write |
| `Layout` | offsets and sizes of the metadata |
| `ChunkedMove`, `ResizeMove`, `ResizeOperation` | the move of internal metadata after the device grew |
| `Hweight`, `ApplyAlSpec`, `ApplyAl` | marking hot extents in the bitmap |
| `AlReplay`, `AlReplayCorrect` | replay of the activity log |
| `MetaApplyAl`, `ApplyAlRedo` | replay, marking and the writes of log and flags together, as `apply-al` runs them; a crash at any point, and the command once more |
| `BitmapDump`, `BitmapRestore`, `BitmapRoundTrip`, `VerifyDecoder` | printing the bitmap, restoring it, reading it with `drbd-verify.py` |
| `Datasets`, `OosAccounting` | what `drbd-verify.py` makes of the results |
| `Netlink` | attributes in a message buffer |
| `GlobMatch` | patterns and matching |
| `VolumeMerge`, `Deferred` | merging volume lists, running deferred commands |

## Where the code differs from what it or its documentation promises

The model follows the code. The members named state each difference, most of them as an exact condition.

- `assign_32_of_64bit` compares an `int` with a `size_t`, so a negative index counts as outside the window. Every window
  but the first has negative indices: restoring a dump writes the first window only. It is complete exactly if every
  64-bit word the device calls for fits there, which with the 32 MiB buffer, one peer and 4 KiB per bit means devices of
  up to 1 TiB (`DumpRestoreIdentity`, `DeviceLimit`, `OneTebibyte`).
- `fprintf_bm` counts words in 32 bits: the dump is complete exactly for bitmaps below 16 GiB (`DumpComplete`).
- If a slot has one 32-bit word more than a multiple of 8, `fprintf_bm` ends with a blank line, and `drbd-verify.py`
  raises an exception on blank lines. This needs a peer count that is no power of two, for instance seven peers and a
  device of 60 MiB (`PrintAndVerify`, `PowerOfTwoPeers`, `UnreadableDump`).
- Clipping to `max_usable_sectors` leaves a bitmap that fits the area, for every tracked size, exactly if the area is a
  multiple of 4 KiB. That of a flexible external device is not if its number of sectors is no multiple of 8
  (`MaxUsableExactly`, `ClippedExactly`).
- `apply_al` skips an extent whose words end exactly at the end of the bitmap, even if all of it is on the device
  (`WholeExtents`, `LastExtentSkipped`, `PartialExtentSkipped`), and does not count bits where it sets whole words.
- `apply-al` can be repeated after a crash without losing a bit, but not always with the same result: while the log is being
  initialised, with all bits set, what is left of it can mark extents that are no longer active. The second run leaves every
  bitmap alone exactly if the torn log marks no extent that the old one does not (`TornLogExactly`, `TornLogMarksMore`).
- The move after a resize survives a crash at every point exactly if no write in front of that of the superblock changes
  the old metadata (`CrashSafeExactly`); the source has a FIXME on this. For growth by a multiple of 4 KiB that is exactly
  if the old superblock lies below the new bitmap (`AlignedCrashSafeExactly`). The sizes themselves may be any.
- The move delivers log and bitmap for all contents exactly if the bitmap does not move down over itself in several chunks
  (`MoveExactly`). It never does when the device grows by a multiple of 4 KiB (`AlignedMove`), but does for instance when a
  device of 1 TiB and 128 MiB grows by one sector (`UnalignedCounterexample`).
- Unless told otherwise the move fills the trailing part of the bitmap with zeros, although a comment says it is left as it
  is and another one that it is set to all-dirty (`MoveResult`).
- A flexible internal layout that does not fit the device gets a wrapped bitmap offset (`FreshFlexInternalFits`).
- `match_text` lets the last fragment overlap the others: the pattern `ab*b` accepts `ab`. What is accepted is what the
  pattern means exactly if the last fragment starts behind the others (`PatternExactly`).
- The last loop of `compare_volumes` follows a `next` that `INSERT_SORTED` has rewritten: of the volumes to be deleted only
  the first gets into the list. The list is the sorted union exactly if there is at most one (`SplicedExactly`).
- A netlink attribute of more than 65535 bytes is written with a truncated length, and clearing its padding, which goes by
  that length, can overwrite its type (`AttributesRoundTrip`, `PutBytes`).
- `get_partition_for_offset` also finds blocks that overlap a partition without sectors, unless that starts at sector 0; on
  all others the test is that a byte is in both (`OverlapsExactly`). Whether `kpartx` reports such a partition is not part
  of this model.
- `map_oos_to_partitions` rounds the size of a block down to KiB, so it would drop all blocks if a bit stood for less than
  1 KiB (`BlocksKept`). This does not happen with what `drbdmeta` writes: `bm_bytes` asserts at least 4 KiB.
- A deferred command that returns a negative value in a prerequisite stage makes its resource be skipped, but does not
  count as a failure of the stage (`PositiveResult`, `SkipMeaning`).

## Parameters

Buffer size, peer count, stripes, blocks per log, and context and update entries per transaction are parameters, with the
divisibility the code relies on. Constants that come from the kernel headers, which are not part of this repository
(`DRBD_PEERS_MAX` 32, bitmap blocks of 4 KiB to 1 MiB, `NLA_F_NESTED` and the type mask of `linux/netlink.h`), are taken
from there. Block device I/O is copying between arrays and does not fail. Words on disk are modelled as 32-bit words,
independent of byte order, and a crash tears a write of the bitmap between words, one of the log anywhere, one of the
superblock not at all; the 16-bit fields of a netlink header are taken as little endian. The log's magic and checksum
are one flag per block. `(int)a - (int)b` on 32-bit numbers is taken to wrap, as compilers make it do.

## Model

| member | source | states |
|---|---|---|
| `Layout.Format.ReInitializeMdOffsets` | user/shared/drbdmeta.c:1399-1448 | fields after re-initialising the offsets, and where the tool exits because the bitmap is too large |
| `Layout.Format.InitializeRelative` | user/shared/drbdmeta.c:1410-1446 | the relative offsets of all four kinds of metadata |
| `Layout.Format.ClipEffectiveSize` | user/shared/drbdmeta.c:2637-2646 | after clipping, the bitmap of the tracked size fits an external area of whole 4k blocks |
| `Layout.FreshFlexInternalAccepted` | user/shared/drbdmeta.c:452-478 | up to 1 PiB a fresh flexible layout passes the offset checks and fits signed 32 bits |
| `Layout.FreshFlexInternalFits` | user/shared/drbdmeta.c:1429-1448 | data, bitmap, log and superblock are aligned, adjacent and disjoint exactly if bitmap and log fit in front of the superblock |
| `Layout.FreshOtherAccepted` | user/shared/drbdmeta.c:397-451 | the other layouts pass, the fixed internal one exactly with a 32 KiB log, which is what format 07, its only user, has |
| `Layout.AcceptedOffsets` | user/shared/drbdmeta.c:452-478 | accepted offsets determine where log and bitmap are |
| `Layout.FlexSuperblock` | user/shared/drbdmeta.c:1630-1634 | the superblock is the last aligned 4k block |
| `Layout.BmBytesGrowth` | user/shared/drbdmeta.c:2474-2502 | growing by a number of 4k blocks grows the bitmap by no more than that |
| `Layout.BmBytesMonotone` | user/shared/drbdmeta.c:2474-2502 | a larger device has no smaller bitmap |
| `Layout.BmBytesViaWords` | user/shared/drbdmeta.c:2474-2502 | the bitmap is whole 4k blocks with room for every slot's 64-bit words |
| `Layout.MaxUsableAdjoint` | user/shared/drbdmeta.c:1382-1393 | a device's bitmap fits an area of whole 4k blocks exactly up to the usable size |
| `Layout.MaxUsableExactly` | user/shared/drbdmeta.c:1382-1393 | bitmap size and usable size are adjoint exactly for areas of whole 4k blocks |
| `Layout.MaxUsableOutside` | user/shared/drbdmeta.c:1382-1393 | in every other area the bitmap of the usable size does not fit |
| `Layout.ClippedExactly` | user/shared/drbdmeta.c:2637-2646 | clipping makes the bitmap fit for every tracked size exactly for areas of whole 4k blocks |
| `Layout.UsableInternally` | user/shared/drbdmeta.c:1357-1367 | with flexible internal metadata that fits, the usable size ends where the bitmap starts, and bitmap, log and superblock follow |
| `Layout.UsableExternally` | user/shared/drbdmeta.c:1368-1395 | with external metadata in whole 4k blocks, exactly the sizes up to the usable size have a bitmap that fits |
| `Layout.ExternalRanges` | user/shared/drbdmeta.c:1410-1425 | superblock, log and bitmap fill the 128 MiB of an index, or all of a flexible external device |
| `Layout.FixedInternalRange` | user/shared/drbdmeta.c:1425-1428 | the old fixed internal metadata fills the last 128 MiB, and the data area ends in front of it |
| `Layout.TooLargeExactly` | user/shared/drbdmeta.c:1438-1445 | the tool exits exactly if a peer's share of the bitmap is above 32 GiB |
| `ChunkedMove.PeelMove` | user/shared/drbdmeta.c:4894-4906 | contents and every intermediate image of the chunked move |
| `ChunkedMove.PeelCorrect` | user/shared/drbdmeta.c:4894-4906 | moving up in chunks from the end copies overlapping ranges correctly |
| `ChunkedMove.PeelExact` | user/shared/drbdmeta.c:4894-4906 | it does so for all contents exactly if the destination is not below an overlapping source, or one buffer suffices |
| `ChunkedMove.PeelInPlace` | user/shared/drbdmeta.c:4894-4906 | moving a range onto itself changes nothing at any point |
| `ChunkedMove.PeelShape` | user/shared/drbdmeta.c:4894-4906 | no write leaves the destination |
| `ChunkedMove.FillRange` | user/shared/drbdmeta.c:4920-4927 | contents and images of filling a range |
| `ResizeMove.WriteAll` | user/shared/drbdmeta.c:4881-4970 | the run's final contents and the image after each of its writes |
| `ResizeMove.WriteLogAndBitmap` | user/shared/drbdmeta.c:4881-4928 | the same for log, bitmap and trailing part |
| `ResizeMove.MoveResult` | user/shared/drbdmeta.c:4881-4970 | log and bitmap arrive byte for byte, the trailing part has the chosen fill, the old region is wiped, nothing else changes |
| `ResizeMove.MoveExactly` | user/shared/drbdmeta.c:4881-4970 | the exact condition under which it delivers for all contents |
| `ResizeMove.WipeKeepsNew` | user/shared/drbdmeta.c:4947-4970 | the wipe leaves the new metadata complete |
| `ResizeMove.BeforeSuperblock` | user/shared/drbdmeta.c:4881-4928 | before the superblock is written, only the new bitmap and log change |
| `ResizeMove.CrashSafeWhenClear` | user/shared/drbdmeta.c:4874-4970 | if log, bitmap and trailing part are each written in place or clear of the old metadata, after every write the old or the new metadata is complete |
| `ResizeMove.CrashSafeExactly` | user/shared/drbdmeta.c:4874-4970 | that condition on the offsets is necessary and sufficient over all contents, for every move |
| `ResizeMove.KeepsOldMeaning` | user/shared/drbdmeta.c:4874-4879 | if superblock and bitmap do not move down, it says that the old superblock lies below the new bitmap |
| `ResizeMove.LogLoses` | user/shared/drbdmeta.c:4881-4884 | a log written over the old metadata loses some contents at a crash |
| `ResizeMove.BitmapLoses` | user/shared/drbdmeta.c:4894-4906 | so does a bitmap that is, up or down, in one chunk or several |
| `ResizeMove.TrailLoses` | user/shared/drbdmeta.c:4914-4928 | and a trailing part that is |
| `ResizeOperation.MoveInternalMdAfterResize` | user/shared/drbdmeta.c:4837-4975 | the operation's contents and images for the offsets of old and new superblock |
| `ResizeOperation.MoveOffsets` | user/shared/drbdmeta.c:4850-4892 | the offsets it reads are those of the two layouts |
| `ResizeOperation.AlignedPlan` | user/shared/drbdmeta.c:4881-4906 | for growth by a multiple of 4k the bitmap never moves down |
| `ResizeOperation.AlignedMove` | user/shared/drbdmeta.c:4881-4970 | for growth by a multiple of 4k log and bitmap are always delivered |
| `ResizeOperation.ResizeCrashSafeExactly` | user/shared/drbdmeta.c:4837-4975 | the exact condition for any two sizes of the device |
| `ResizeOperation.AlignedCrashSafeExactly` | user/shared/drbdmeta.c:4874-4970 | growth by a multiple of 4k is crash safe exactly if the old superblock is below the new bitmap |
| `ResizeOperation.UnalignedCounterexample` | user/shared/drbdmeta.c:4894-4906 | growth by one sector can corrupt the bitmap |
| `Hweight.HweightCountsBits` | user/shared/drbd_endian.h:119-126 | the parallel additions count the bits set, for every word |
| `ApplyAlSpec.SetExtentsBits` | user/shared/drbdmeta.c:2148-2159 | a bit of a slot is set afterwards exactly if it was, or its extent is hot and ends before the end of the bitmap |
| `ApplyAlSpec.SetExtentBits` | user/shared/drbdmeta.c:2148-2159 | the same for one extent |
| `ApplyAlSpec.ExtentBits` | user/shared/drbdmeta.c:2279-2296 | word range and mask select exactly the extent's bits |
| `ApplyAlSpec.MaskBits` | user/shared/drbdmeta.c:2289-2290 | the bits of the sub-word mask |
| `ApplyAlSpec.OnDiskBitInverse` | user/shared/drbdmeta.c:2079-2089 | slot and bit can be recovered from the on-disk bit |
| `ApplyAlSpec.OnDiskBitOnto` | user/shared/drbdmeta.c:2079-2089 | every on-disk bit belongs to a slot and bit |
| `ApplyAlSpec.WholeExtents` | user/shared/drbdmeta.c:2220-2227 | a whole extent on the device is skipped exactly if it ends at the end of the bitmap |
| `ApplyAlSpec.LastExtentSkipped` | user/shared/drbdmeta.c:2220-2227 | which happens on a 128 MiB device |
| `ApplyAlSpec.PartialExtentSkipped` | user/shared/drbdmeta.c:2240-2244 | a partial last extent can be skipped as well |
| `ApplyAl.ApplyAl` | user/shared/drbdmeta.c:2161-2320 | the batched code computes the one-extent-at-a-time specification; it counts the new bits in the sub-word case, and none otherwise |
| `ApplyAl.ApplyRound` | user/shared/drbdmeta.c:2197-2314 | one round handles a non-empty run of extents exactly |
| `ApplyAl.ApplyBatch` | user/shared/drbdmeta.c:2250-2312 | one read, change and write inside buffer and bitmap |
| `ApplyAl.BatchEnd` | user/shared/drbdmeta.c:2229-2247 | the batch can be covered by one buffer, and no longer one can |
| `ApplyAl.ChunkWords` | user/shared/drbdmeta.c:2250-2264 | the chunk never exceeds the buffer or the bitmap, and holds every extent of the batch |
| `ApplyAl.SingleExtentFits` | user/shared/drbdmeta.c:2148-2159 | one extent never crosses its 4k-per-peer block |
| `ApplyAl.SetBitsInWords` | user/shared/drbdmeta.c:2298-2308 | each slot's word gets the mask, and the new bits are counted |
| `ApplyAl.MakePatches` | user/shared/drbdmeta.c:2148-2159 | ranges of sorted extents are sorted and well placed |
| `ApplyAl.AllHotExtents` | user/shared/drbdmeta.c:2202-2206 | in a sorted array no extent hides behind an unused entry |
| `AlReplay.OnDiskSlotBijection` | user/shared/drbdmeta.c:1905-1917 | transaction numbers modulo mx map one to one onto the blocks, consecutive ones into consecutive stripes |
| `AlReplay.ReplayAl84` | user/shared/drbdmeta.c:1924-2044 | return code and active set as functions of the ring |
| `AlReplay.ReadRing` | user/shared/drbdmeta.c:1942-1972 | the blocks in transaction order, and the result of the scan |
| `AlReplay.OutcomeMeaning` | user/shared/drbdmeta.c:1973-2006 | by the blocks: whether there is something to apply, nothing, no log, or a broken one |
| `AlReplayCorrect.BlockMeaning` | user/shared/drbdmeta.c:2016-2039 | by the fields of a transaction: a slot gets its last update, else what the context tells, else stays |
| `AlReplayCorrect.SerialOrder` | user/shared/drbdmeta.c:1960-1969 | the wrapping comparison orders numbers less than 2^31 apart |
| `AlReplayCorrect.FindsOldestAndNewest` | user/shared/drbdmeta.c:1942-2012 | the scan finds the first and last transaction across both wraps |
| `AlReplayCorrect.ReplaysInCommitOrder` | user/shared/drbdmeta.c:2010-2042 | every intact transaction is applied once, in the order written |
| `AlReplayCorrect.RebuildsActiveSet` | user/shared/drbdmeta.c:2007-2042 | every slot the log still tells about ends with its newest contents, corrupt blocks in between or not |
| `AlReplayCorrect.RebuildsIntactLog` | user/shared/drbdmeta.c:2007-2042 | in an intact log these are the slots mentioned; the others are left alone |
| `MetaApplyAl.ApplyLog` | user/shared/drbdmeta.c:2355-2472 | exit code; bitmap, log and flags afterwards; and the image after every write, in order |
| `MetaApplyAl.MetaData.InitializeLog` | user/shared/drbdmeta.c:1467-1498 | every block is a valid one without a transaction |
| `MetaApplyAl.CodeMeaning` | user/shared/drbdmeta.c:2395-2421 | by the blocks on disk: exit codes 1 and 2 exactly for a crashed primary without any valid block, or with a broken log, and then nothing changes |
| `MetaApplyAl.CommandMeaning` | user/shared/drbdmeta.c:2423-2460 | by the blocks on disk: when the bitmap changes, when the log is all fresh afterwards and when it stays, and the flags |
| `MetaApplyAl.WritesMeaning` | user/shared/drbdmeta.c:2423-2465 | how many writes there are |
| `MetaApplyAl.MarksActiveSet` | user/shared/drbdmeta.c:2376-2430 | with an intact log, a bit of any slot is set afterwards exactly if it was, or its extent is in a slot of the newest active set that the log mentions, and ends before the end of the bitmap |
| `MetaApplyAl.MarksKnownSlots` | user/shared/drbdmeta.c:2376-2430 | with corrupt transactions in between, the slots the log still tells about are marked |
| `MetaApplyAl.HotOnceSorted` | user/shared/drbdmeta.c:2427 | sorting puts all used entries in front of the unused ones |
| `MetaApplyAl.SortedOfMeaning` | user/shared/drbdmeta.c:2064-2071 | the order that is established: ascending, with the same entries |
| `ApplyAlRedo.CrashAndRedo` | user/shared/drbdmeta.c:2355-2472 | after a crash between or within any of the writes the command loses no bit when run again; before the log is written it gives the same bitmap, from then on exactly if what the log still marks is set already |
| `ApplyAlRedo.CrashLeaves` | user/shared/drbdmeta.c:2424-2472 | what a crash leaves: old log and part of the bits, or all bits and a log of which some blocks are fresh, old or not valid |
| `ApplyAlRedo.RedoCompletes` | user/shared/drbdmeta.c:2161-2320 | with the log as it was, and any of the bits to be set already set, the result is the same |
| `ApplyAlRedo.PartlyBetween` | user/shared/drbdmeta.c:2197-2314 | after any number of extents, some of the bits that are to be set are, and no others |
| `ApplyAlRedo.AfterKeeps` | user/shared/drbdmeta.c:2161-2320 | no bit is ever cleared, whatever the log says |
| `ApplyAlRedo.ChangesNothingExactly` | user/shared/drbdmeta.c:2376-2430 | for a given bitmap, a second run changes nothing exactly if all that its log marks is set |
| `ApplyAlRedo.TornLogExactly` | user/shared/drbdmeta.c:1467-1498 | for all bitmaps it does so exactly if the torn log marks no extent in the bitmap that the old log does not |
| `ApplyAlRedo.TornLogMarksMore` | user/shared/drbdmeta.c:1467-1498 | a log of two transactions of which the first survives marks another extent |
| `ApplyAlRedo.FreshLogMarksNothing` | user/shared/drbdmeta.c:1467-1498 | with the log written, a second run leaves the bitmap alone |
| `BitmapDump.PrintBitmap` | user/shared/drbdmeta.c:2514-2612 | across refills and carried runs the dump expands to the slot's 64-bit words, exactly the lines like a neighbour in their chunk are run-length encoded, lines and comments are where they belong, the bit count is right modulo 2^32, and when the last line is blank |
| `BitmapDump.PrintSlot` | user/shared/drbdmeta.c:2550-2609 | the same for the words that are counted |
| `BitmapDump.FlagRun` | user/shared/drbdmeta.c:2578-2599 | a line is run-length encoded exactly if a neighbour in its chunk is like it |
| `BitmapDump.PlaceLine` | user/shared/drbdmeta.c:2504-2510 | where lines begin, and which of them have a comment |
| `BitmapDump.TakeRun` | user/shared/drbdmeta.c:2573-2599 | one run: counted, carried or printed, and progress of the loop |
| `BitmapDump.DumpComplete` | user/shared/drbdmeta.c:2523 | all slots are printed completely exactly below 16 GiB |
| `BitmapDump.Wrap` | user/shared/drbdmeta.c:2552-2569 | at the end of a full buffer the next chunk starts at the same slot |
| `BitmapRestore.Assign32` | user/shared/drbdmeta.c:3738-3753 | a word is assigned exactly if its index is inside the window; negative ones do not advance |
| `BitmapRestore.ParseSlot` | user/shared/drbdmeta.c:3755-3826 | what the first window takes of a slot, and that later ones take nothing |
| `BitmapRestore.ParseWindow` | user/shared/drbdmeta.c:3828-3840 | the same for all slots, and the number of words reported |
| `BitmapRestore.StoreWindow` | user/shared/drbdmeta.c:3861-3878 | the rest is cleared, and the write is cut at the end of the bitmap |
| `BitmapRestore.ParseBitmap` | user/shared/drbdmeta.c:3842-3892 | the bitmap on disk after a restore |
| `BitmapRestore.RestoredWithin` | user/shared/drbdmeta.c:3755-3840 | word for word, what a restore puts where the first window reaches |
| `BitmapRestore.RestoredBehind` | user/shared/drbdmeta.c:3861-3878 | zeros up to the end of the sector, and no change behind it |
| `BitmapRoundTrip.PrintAllSlots` | user/shared/drbdmeta.c:2614-2635 | the dump of all slots |
| `BitmapRoundTrip.DumpRestoreIdentity` | user/shared/drbdmeta.c:2514-2612 | dump and restore are the identity on the words called for, for all contents, exactly if they fit one window and the dump |
| `BitmapRoundTrip.FaithfulWithin` | user/shared/drbdmeta.c:3842-3892 | within that limit every word comes back |
| `BitmapRoundTrip.Unfaithful` | user/shared/drbdmeta.c:3738-3743 | beyond it some bitmap does not |
| `BitmapRoundTrip.DeviceBitmap` | user/shared/drbdmeta.c:2474-2502 | the words a device calls for are among those of the bitmap |
| `BitmapRoundTrip.DeviceLimit` | user/shared/drbdmeta.c:3738-3743 | for every block size, peer count and buffer, the device size up to which all that a bitmap calls for comes back |
| `BitmapRoundTrip.OneTebibyte` | user/shared/drbdmeta.c:3738-3743 | with 32 MiB and one peer the limit is a device of 1 TiB |
| `BitmapRoundTrip.RunsFit` | user/shared/drbdmeta.c:2589-2591 | run lengths are bounded by the dump's length |
| `VerifyDecoder.ParseBitmapForPeer` | scripts/drbd-verify.py:886-930 | the words of all lines, or the exception |
| `VerifyDecoder.DecodesLineExactly` | scripts/drbd-verify.py:901-921 | a line gives all its words exactly if it has any, and not both runs and single words, which are then lost |
| `VerifyDecoder.WordBehindRun` | scripts/drbd-verify.py:903-912 | so a word behind a run on the same line is lost |
| `VerifyDecoder.IterateOosOffsets` | scripts/drbd-verify.py:1011-1023 | exactly the set bits, in increasing order |
| `VerifyDecoder.DecodesDump` | scripts/drbd-verify.py:886-930 | a regular dump decodes to its words unless its last line is blank |
| `VerifyDecoder.PrintAndVerify` | scripts/drbd-verify.py:848-930 | reports exactly the printed bits set in slot p on disk, or fails exactly for one word more than a multiple of 8 |
| `VerifyDecoder.BitsAgree` | scripts/drbd-verify.py:1011-1023 | a bit of the dump is the interleaved bit on disk |
| `VerifyDecoder.PowerOfTwoPeers` | user/shared/drbdmeta.c:2601-2609 | with a power of two of peers every slot is a multiple of 8 words, so no last line is blank |
| `VerifyDecoder.UnreadableDump` | scripts/drbd-verify.py:926-930 | seven peers and 60 MiB |
| `Datasets.DetermineDatasets` | scripts/drbd-verify.py:1687-1744 | the connected components whatever the order, or an exception exactly if two reports between two of them differ |
| `Datasets.GroupNodes` | scripts/drbd-verify.py:1703-1713 | the classes are sound and complete for the relation |
| `Datasets.ClassesAreComponents` | scripts/drbd-verify.py:1703-1713 | they are its reflexive and transitive closure |
| `Datasets.CollectDatasets` | scripts/drbd-verify.py:1715-1722 | each component once |
| `Datasets.CheckTransitivity` | scripts/drbd-verify.py:1724-1742 | fails exactly if two values between two datasets differ |
| `Datasets.ViolatedIsInconsistent` | scripts/drbd-verify.py:1724-1742 | the same said about connected nodes |
| `OosAccounting.GetPartitionForOffset` | scripts/drbd-verify.py:650-672 | the first overlapping partition |
| `OosAccounting.BucketOverlaps` | scripts/drbd-verify.py:650-672 | that partition overlaps, no earlier one does; or none does |
| `OosAccounting.OverlapsBytes` | scripts/drbd-verify.py:661-668 | the sector test is overlap of bytes |
| `OosAccounting.OverlapsExactly` | scripts/drbd-verify.py:664-668 | for all blocks exactly if the partition has sectors or starts at sector 0 |
| `OosAccounting.BucketMeaning` | scripts/drbd-verify.py:1771-1781 | a block counts as unpartitioned exactly if it overlaps no partition, else for the first one it overlaps |
| `OosAccounting.FsTypeOf` | scripts/drbd-verify.py:1763-1769 | the file system of a bucket is that of its partition |
| `OosAccounting.NoFsType` | scripts/drbd-verify.py:1761 | the unpartitioned bucket has none |
| `OosAccounting.MapOosToPartitions` | scripts/drbd-verify.py:1747-1793 | KiB, file system and blocks of every bucket that is returned |
| `OosAccounting.BlocksOfMeaning` | scripts/drbd-verify.py:1771-1781 | each block is in its one bucket, in increasing order |
| `OosAccounting.ReportedForPartition` | scripts/drbd-verify.py:1747-1793 | what is returned for a partition are exactly the set bits whose blocks overlap it and none before it |
| `OosAccounting.ReportedUnpartitioned` | scripts/drbd-verify.py:1747-1793 | what is returned as unpartitioned are exactly those whose blocks overlap none |
| `OosAccounting.KibConserved` | scripts/drbd-verify.py:1771-1793 | the KiB of all buckets add up to those of all set bits |
| `OosAccounting.BlocksKept` | scripts/drbd-verify.py:1783-1791 | no block is dropped exactly if a bit is at least 1 KiB |
| `Netlink.MsgBuff.NlaPut` | user/shared/libnla.c:452-459 | appends one encoded attribute exactly if it fits, else nothing |
| `Netlink.MsgBuff.NlaReserveUnchecked` | user/shared/libnla.c:330-341 | header and padding are written, the tail moves on |
| `Netlink.PutBytes` | user/shared/libnla.c:330-341 | header, padding and payload leave the encoding of the attribute behind what was there |
| `Netlink.LeafHeaderFields` | user/shared/libnla.c:334-338 | clearing the padding keeps the stored length, and the type if the length is not truncated |
| `Netlink.WireFormat` | user/shared/libnla.c:330-341 | the bytes of an attribute: length, type with the flag for containers, payload, zeros up to a multiple of 4 |
| `Netlink.MsgBuff.NlaNestStart` | user/shared/libgenl.h:865-873 | an empty container, and where it starts |
| `Netlink.MsgBuff.NlaNestEnd` | user/shared/libgenl.h:885-889 | the container's length is patched, nothing else |
| `Netlink.PutAttrs` | user/shared/libgenl.h:865-889 | nested calls append the encoding of the whole tree exactly if it fits |
| `Netlink.PatchedNest` | user/shared/libgenl.h:885-889 | the patched container is the encoding of a nested attribute |
| `Netlink.AttributesRoundTrip` | user/shared/libgenl.h:614-635 | iteration returns types and payloads in order exactly if all sizes fit 16 bits |
| `Netlink.NestedRoundTrip` | user/shared/libgenl.h:865-889 | the same for attributes nested to any depth |
| `Netlink.DecodedSize` | user/shared/libgenl.h:614-635 | what is read from any bytes takes no more room than they do |
| `Netlink.NlaFind` | user/shared/libnla.c:223-233 | the first attribute of a type, on any bytes |
| `Netlink.NlaParse` | user/shared/libnla.c:181-213 | the last attribute of each type in range, up to the first policy violation |
| `Netlink.FirstMeaning` | user/shared/libnla.c:223-233 | no attribute of that type comes before it |
| `Netlink.LastMeaning` | user/shared/libnla.c:189-201 | no attribute of that type comes after it |
| `Netlink.TypeWithoutFlags` | user/shared/libgenl.h:586-589 | the two flags at the top are not part of the type |
| `Netlink.FindsWritten` | user/shared/libnla.c:223-233 | finds the first attribute written with a type, container or not |
| `Netlink.ParsesWritten` | user/shared/libnla.c:181-213 | keeps the last attribute written with a type, out of those in front of the first violation |
| `GlobMatch.ProcessPattern` | user/drbdmon/string_matching.cpp:30-60 | the fragments, or the exception above 20 |
| `GlobMatch.FragmentsMeanPattern` | user/drbdmon/string_matching.cpp:30-60 | dropping empty fragments keeps the pattern's meaning |
| `GlobMatch.MatchText` | user/drbdmon/string_matching.cpp:62-90 | what is accepted |
| `GlobMatch.AcceptsExactly` | user/drbdmon/string_matching.cpp:62-90 | all but the last fragment can be placed disjointly in order, the first at the start, and the last is a suffix |
| `GlobMatch.GreedyFits` | user/drbdmon/string_matching.cpp:74-84 | placing early leaves most room: greedy placement fits whenever any does |
| `GlobMatch.GlobExactly` | user/drbdmon/string_matching.cpp:62-90 | every text the fragments mean is accepted, and acceptance is right exactly if the suffix is clear of the rest |
| `GlobMatch.PatternExactly` | user/drbdmon/string_matching.cpp:30-90 | the same for patterns |
| `GlobMatch.OneAsterisk` | user/drbdmon/string_matching.cpp:74-78 | with one asterisk, wrong exactly if the text is shorter than both fragments |
| `GlobMatch.OverlapAccepted` | user/drbdmon/string_matching.cpp:74-78 | ab*b accepts ab |
| `VolumeMerge.CompareVolumes` | user/v84/drbdadm_adjust.c:589-616 | every configured volume is judged against its counterpart once, every other running one has a template, and the list returned |
| `VolumeMerge.Compare` | user/v84/drbdadm_adjust.c:589-612 | the merge join on ordered lists |
| `VolumeMerge.CompareVolume` | user/v84/drbdadm_adjust.c:518-533 | the flags of a volume that is configured and running |
| `VolumeMerge.NewTemplate` | user/v84/drbdadm_adjust.c:557-574 | a volume flagged for deletion |
| `VolumeMerge.InsertSorted` | user/v84/drbdadm.h:295-306 | links after an insertion; an item in the list already stays where it is |
| `VolumeMerge.Splice` | user/v84/drbdadm_adjust.c:613-614 | only the first volume to be deleted is inserted |
| `VolumeMerge.SplicedExactly` | user/v84/drbdadm_adjust.c:613-615 | the list holds the first of the volumes to be deleted, so it is the sorted union exactly for at most one |
| `VolumeMerge.OnlyInKernel` | user/v84/drbdadm_adjust.c:594-598 | the templates are for exactly the volumes that are not configured |
| `Deferred.Scheduler.Schedule` | user/v84/drbdadm_main.c:450-478 | a command is queued last in its stage |
| `Deferred.Scheduler.RunStage` | user/v84/drbdadm_main.c:534-583 | what is executed, skipped and returned |
| `Deferred.Scheduler.RunAll` | user/v84/drbdadm_main.c:585-603 | which stages start, what they execute, and the result |
| `Deferred.SkipMeaning` | user/v84/drbdadm_main.c:560-569 | a resource is skipped from its first failure in a prerequisite stage on |
| `Deferred.SkipAtMeaning` | user/v84/drbdadm_main.c:585-603 | and in all later stages |
| `Deferred.RunExecutes` | user/v84/drbdadm_main.c:534-603 | a command of a started stage runs exactly if no prerequisite of its resource failed before it |
| `Deferred.ExecutesExactly` | user/v84/drbdadm_main.c:547-582 | within a stage the other resources go on |
| `Deferred.PositiveResult` | user/v84/drbdadm_main.c:579-582 | a stage counts as failed exactly if an executed command returned a positive value |
| `Deferred.LargestResult` | user/v84/drbdadm_main.c:579-582 | the result is the largest value an executed command returned, or 0 |
| `Deferred.SucceedsExactly` | user/v84/drbdadm_main.c:585-603 | the run succeeds exactly if no command of any stage returns a positive value |
| `Deferred.RunOrdered` | user/v84/drbdadm_main.c:534-603 | commands run by stage, then in the order scheduled |

## Left out

- PrintBitmap: the text itself (indentation, the text of comments); lines are kept as tokens, because the second reader works by line.
- ParseBitmap: syntax errors, which end the tool, the parse-only mode, dumps of formats before version 9, and repeat counts above 2^31, which the source truncates to int; no dump of the printer has any.
- ParseBitmap: garbage behind a slot that is shorter than the last one is whatever the buffer held; the model keeps it so.
- MoveInternalMdAfterResize: the superblock's encoding is a parameter, and writing it does not fail; its own validity check has passed when the offsets are accepted.
- ApplyAl: all ranges are computed before the loop, where the source computes each when it needs it; messages and the 32-bit overflow of the bit counter are not modelled.
- ApplyLog: logs in the format before 8.4 and on persistent memory are not modelled; of the superblock only magic and flags are; qsort is the function SortedOf, not its algorithm.
- RebuildsActiveSet: the kernel's log writer is not part of this model; what it must record is the History predicate.
- ParseBitmapForPeer: the search for the peer, its bitmap index and the block size in the dump; the model starts at the slot's lines.
- ParseSlot: windows after the second, which the loop of ParseBitmap never reaches.
- ParseWindow: windows after the second, likewise.
- NlaParse: the length rules of validate_nla are a parameter, any test of a single attribute; nla_append, which can leave the tail unaligned, and the nohdr and 64-bit variants are not modelled.
- CompareVolume: disk and meta data are compared as one number; option lists (size, max-bio-bvecs, other disk options) are not modelled.
- CompareVolumes: hence the flags for resizing and for disk options are not judged.
- NewTemplate: disk, meta disk and index are one number, and the options that are copied with them are left out.
- RunAll: commands return arbitrary values and do not schedule further commands; the queue heads, which the source leaves pointing at freed commands, become empty queues.
- ProcessPattern: the list of fragments is a sequence; the source links items that own each other.
- MapOosToPartitions: the analysis of single files.
- Opening devices, ioctls, checksums, endian conversion of superblocks, formats 06 and 07, persistent memory logs, version conversion, file system detection, prompts, the display of drbdmon, and the configuration parser of drbdadm are not part of this model; most of it depends on code outside the repository.
