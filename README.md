# FAT16 root-directory engine

A Dafny model of the engine in `src/fat16_fs.c` and the record layouts and
sentinels in `src/fat16.h`. The engine opens a FAT16 image, keeps the boot
sector, the FAT and the root directory in memory (the `Fat16Ctx` context),
and works only on the root directory: list, show a file's bytes, show its
attributes, rename, delete, and create a file from a host file.

The model is split as the engine is:

- `common.dfy`: the `uint8_t`/`uint16_t`/`uint32_t` ranges, the little-endian
  codecs, the error kinds, and arrays of packed records as `fread`/`fwrite`
  see them.
- `ondisk.dfy`: the packed `BootSector` (62 bytes) and `DirectoryEntry`
  (32 bytes), the `ATTR_*` flags and the `FAT16_*` sentinels.
- `geometry.dfy`: `compute_derived`, the offsets of the FAT copies, the root
  directory and the data region, and `cluster_offset`.
- `timestamp.dfy`: the packed date and time codec.
- `names.dfy`: `fat16_to83` and `make_readable`, as functions and as the
  loops the engine runs.
- `store.dfy`: the image as a byte sequence, positioned reads and writes, and
  `load_boot`, `load_fat`, `load_root`, `save_fat`, `save_root`,
  `fat16_open` and `fat16_flush` as functions on it.
- `fattable.dfy`: the free search, the three loops of `allocate_chain` (both as
  written and as intended), and the release walk of `fat16_delete`.
- `chain.dfy`: the walk of `read_chain`.
- `rootdir.dfy`: `entry_free`, `entry_regular`, `find_by_name`,
  `find_free_dir`, the listing, and the slot updates of rename, delete and
  create.
- `ops.dfy`: each public operation as a function from the volume's state to a
  status and the new state. It also holds the properties that relate the
  operations: create then show, create then delete, and save then reopen.
- `engine.dfy`: the context as a class `Volume`. The FAT and the root
  directory are arrays the methods update in place, and the image is a field.
  Every method is proved against the function in `ops.dfy` that says what it
  does. `OpenVolume` is `fat16_open`.

The engine prints its messages. In the model each message becomes a
`Status` or a `Result` value. The host clock (`now_fat`) becomes the packed
date and time parameters. The host source file of `fat16_create` becomes a
byte sequence.

The model follows the code wherever the engine's own description says
otherwise. One case is the last cluster written by `fat16_create`. The
description calls it zero-padded, but line 373 zero-fills only after a short
read of the source. Otherwise the slack keeps whatever the cluster buffer
held before: the previous cluster's bytes, or the buffer's first contents.
The model keeps those bytes.

## Model

| member | source | states |
|---|---|---|
| Records.ChunksLength | src/fat16_fs.c:59-60 | reading w-byte records splits the bytes into whole records and fewer than w left over |
| Records.ChunksOfConcat | src/fat16_fs.c:55-73 | records written back to back and read again give the same records, whatever short tail follows |
| Records.ConcatOfChunks | src/fat16_fs.c:55-73 | bytes read as records and written back, followed by the leftover, are the same bytes |
| OnDisk.FlagIsBit | src/fat16.h:8-13 | attribute flag i is the single bit i |
| OnDisk.FlagsAreDistinctBits | src/fat16.h:8-13 | testing flag j on flag i is true exactly when i == j |
| OnDisk.EncodeBoot | src/fat16.h:38-59 | the packed boot sector is 62 bytes, with each field little-endian at its offset (bytes per sector at 11, FAT size at 22, 32-bit total at 32, and the rest) |
| OnDisk.BootRoundTrip | src/fat16.h:38-59 | decoding an encoded boot sector gives it back |
| OnDisk.BootBytesRoundTrip | src/fat16.h:38-59 | encoding a decoded 62-byte block gives the same bytes |
| OnDisk.EncodeEntry | src/fat16.h:76-91 | the packed directory entry is 32 bytes, with name at 0, extension at 8, attributes at 11, times and dates at 14-25, low cluster at 26 and size at 28 |
| OnDisk.EntryRoundTrip | src/fat16.h:76-91 | decoding an encoded entry gives it back |
| OnDisk.EntryBytesRoundTrip | src/fat16.h:76-91 | encoding a decoded 32-byte block gives the same bytes |
| Geometry.RootDirSectors | src/fat16_fs.c:49-50 | the root directory's sectors are its bytes divided by the sector size, rounded up |
| Geometry.DataSectors | src/fat16_fs.c:79-82 | the data sectors are total minus non-data, or 0 when the non-data region fills the volume |
| Geometry.ClusterCount | src/fat16_fs.c:83-84 | the cluster count is the data sectors divided by sectors per cluster, rounded down, and 0 when a cluster has no sectors |
| Geometry.Derive | src/fat16_fs.c:26-34 | the FAT holds floor(fat_size_bytes / 2) 16-bit entries |
| Geometry.DerivedFitsU32 | src/fat16.h:113-121 | every derived field of the context fits its uint32_t |
| Geometry.RootAfterCopies | src/fat16_fs.c:52-53 | the root directory starts after the reserved sectors and num_fats FAT copies |
| Geometry.RootFollowsLastFat | src/fat16_fs.c:39-53 | FAT copy i starts one FAT size after copy i - 1, and the root directory starts where the last copy ends |
| Geometry.RootBeforeData | src/fat16_fs.c:62 | the data region starts after the root directory's whole sectors, so the root directory ends at or before it |
| Geometry.ClusterLayout | src/fat16_fs.c:146-150 | cluster 2 starts the data region, consecutive clusters are one cluster size apart, and distinct clusters do not overlap |
| TimestampCodec.DecodeDate | src/fat16_fs.c:87-91 | every packed date decodes to a day below 32, a month below 16 and a year in [1980, 2108) |
| TimestampCodec.DecodeTime | src/fat16_fs.c:92-96 | every packed time decodes to an hour below 32, a minute below 64 and an even second below 64 |
| TimestampCodec.PackedDateRoundTrip | src/fat16_fs.c:87-100 | every 16-bit date survives a decode and re-encode |
| TimestampCodec.PackedTimeRoundTrip | src/fat16_fs.c:92-103 | every 16-bit time survives a decode and re-encode |
| TimestampCodec.DateFieldsRoundTrip | src/fat16_fs.c:87-100 | in-range day and month and a year from 1980 survive an encode and decode, the year modulo 128 years |
| TimestampCodec.TimeFieldsRoundTrip | src/fat16_fs.c:92-103 | in-range hour and minute and an even second below 64 survive an encode and decode |
| NameCodec.LastDot | src/fat16_fs.c:114 | strrchr: the position of a dot with no dot after it, or none when the name has no dot |
| NameCodec.ToEightThree | src/fat16_fs.c:111-124 | the space-fill and copy loops of fat16_to83 produce the 8.3 form |
| NameCodec.To83SplitsAtLastDot | src/fat16_fs.c:114-119 | with a last dot at k, the name part is the upper-cased bytes before k and the extension the upper-cased bytes after it, truncated to 8 and 3 and space-padded |
| NameCodec.To83WithoutDot | src/fat16_fs.c:120-123 | without a dot the name part is the upper-cased name and the extension is three spaces |
| NameCodec.ToUpperFacts | src/fat16_fs.c:117 | upper-casing makes no space and no dot from another byte, and is idempotent |
| NameCodec.Readable | src/fat16_fs.c:126-134 | the display form holds no space, fits the 13-byte buffer with its NUL, and has no dot part when the extension starts with a space |
| NameCodec.MakeReadable | src/fat16_fs.c:126-134 | make_readable's loops write the display form, in fewer than 13 bytes |
| NameCodec.To83ReadableRoundTrip | src/fat16_fs.c:111-134 | normalizing the display form of a normalized space-free name gives the same 8.3 form, except in the case below |
| NameCodec.To83ReadableCounterexample | src/fat16_fs.c:111-134 | "x.y." normalizes to "X.Y" with an empty extension, and its display form normalizes to "X" with extension "Y" |
| VolumeStore.Overwrite | src/fat16_fs.c:41-43 | a seek and write puts the data at the offset, grows the file as needed and leaves every other byte alone |
| VolumeStore.ReadAt | src/fat16_fs.c:207-211 | a seek and read succeeds exactly when the bytes are there (or none are asked for) and gives those bytes |
| VolumeStore.DecodeFat | src/fat16_fs.c:32-34 | the FAT buffer holds floor(bytes / 2) entries and at most one byte that is no entry |
| VolumeStore.FatRoundTrip | src/fat16_fs.c:25-46 | a saved FAT buffer loads back as the same entries and the same odd trailing byte |
| VolumeStore.FatBytesRoundTrip | src/fat16_fs.c:25-46 | FAT bytes loaded and saved back are the same bytes |
| VolumeStore.RootRoundTrip | src/fat16_fs.c:48-73 | a saved root directory loads back as the same slots |
| VolumeStore.RootBytesRoundTrip | src/fat16_fs.c:48-73 | root-directory bytes loaded and saved back are the same bytes |
| VolumeStore.LoadBoot | src/fat16_fs.c:19-23 | load_boot succeeds exactly when the image holds 62 bytes |
| VolumeStore.LoadFat | src/fat16_fs.c:25-36 | a loaded FAT fills fat_size_16 * bytes_per_sector bytes, has some bytes and leaves at most one byte over |
| VolumeStore.LoadRoot | src/fat16_fs.c:48-64 | a loaded root directory has root_entry_count slots, and an empty one always loads |
| VolumeStore.OpenIsShaped | src/fat16_fs.c:224-239 | what fat16_open loads has the FAT and root sizes its boot sector gives, and a FAT of some bytes |
| VolumeStore.SaveCopiesHolds | src/fat16_fs.c:38-46 | after the copy loop of save_fat the first copy written holds the FAT buffer |
| VolumeStore.SaveCopiesReaches | src/fat16_fs.c:38-46 | the copy loop of save_fat leaves an image reaching the end of its last copy |
| VolumeStore.SaveCopiesKeepsBelow | src/fat16_fs.c:38-46 | the copy loop of save_fat leaves every byte before its first copy alone |
| VolumeStore.SaveCopiesKeepsAbove | src/fat16_fs.c:38-46 | the copy loop of save_fat leaves every byte past its last copy alone |
| VolumeStore.FlushLoadsFat | src/fat16_fs.c:25-46 | after a flush, FAT copy 0 loads as the flushed FAT |
| VolumeStore.SaveRootLoadsRoot | src/fat16_fs.c:48-73 | after save_root the root directory loads as the saved one |
| VolumeStore.FlushLoadsRoot | src/fat16_fs.c:241-243 | after a flush the root directory loads as the flushed one |
| VolumeStore.OpenAfterFlush | src/fat16_fs.c:224-243 | flushing and reopening gives back the flushed volume when there is a FAT copy and the FAT lies clear of the boot sector |
| VolumeStore.SaveRootKeepsBoot | src/fat16_fs.c:66-73 | save_root leaves the boot sector alone |
| VolumeStore.SaveRootKeepsFat | src/fat16_fs.c:66-73 | save_root leaves FAT copy 0 alone |
| VolumeStore.OpenAfterSaveRoot | src/fat16_fs.c:318 | saving only the root directory, as rename does, reopens to the new root directory with the same FAT |
| VolumeStore.FlushKeepsData | src/fat16_fs.c:241-243 | a flush leaves the data region alone |
| VolumeStore.FlushKeepsBoot | src/fat16_fs.c:241-243 | a flush leaves the boot sector alone |
| VolumeStore.SaveRootKeepsData | src/fat16_fs.c:66-73 | save_root leaves the data region alone |
| FatTable.FreeFrom | src/fat16_fs.c:171-173 | the free clusters from an index on, ascending, each free, and every free one listed |
| FatTable.FirstFree | src/fat16_fs.c:169-175 | the least free cluster at max(start, 2) or above, or 0 when none is free |
| FatTable.FirstFreeIsHead | src/fat16_fs.c:169-175 | the search returns the head of the free list from the same place, or 0 |
| FatTable.SetAll | src/fat16_fs.c:182-185 | every listed cluster gets the value and every other entry keeps its own |
| FatTable.ReserveStep | src/fat16_fs.c:179-188 | a pass of the reservation loop finds nothing exactly when every free cluster is taken, and otherwise takes the next free cluster |
| FatTable.RollbackRestores | src/fat16_fs.c:181-183 | putting FREE back on clusters that were free restores the table |
| FatTable.ReservationRollsBack | src/fat16_fs.c:179-184 | claiming the first n free clusters and rolling back leaves the table as it was |
| FatTable.FreePrefixAscending | src/fat16_fs.c:178-188 | the first n free clusters are distinct, ascending, in range and free |
| FatTable.Linked | src/fat16_fs.c:189 | each chain cluster points to the next, the last holds EOF, and no other entry changes |
| FatTable.LinkedIsUnique | src/fat16_fs.c:189 | any table that links the chain, ends it with EOF and changes nothing else is Linked |
| FatTable.LinkingStarts | src/fat16_fs.c:185-189 | before the linking loop every chain cluster holds EOF and nothing else has changed |
| FatTable.LinkStep | src/fat16_fs.c:189 | a pass of the linking loop links one more cluster, and EOF on the last cluster yields Linked |
| FatTable.AllocationTruncatesChain | src/fat16_fs.c:190 | on an all-free five-entry table, a three-cluster allocation as written leaves [0, 0, EOF, 4, EOF], while the intended table is [0, 0, 3, 4, EOF] |
| FatTable.AsWrittenAgreesIff | src/fat16_fs.c:186-190 | the table as written equals the intended one exactly when the intended entry n - 1 already holds EOF; when n - 1 is not a chain cluster, exactly when the untouched fat[n - 1] already holds EOF |
| FatTable.OneClusterOverwritesEntryZero | src/fat16_fs.c:186-190 | a one-cluster allocation as written sets entry 0, outside the chain, to EOF, and agrees with the intended table only when entry 0 already held 0xFFFF |
| FatTable.ReleaseOnlyFrees | src/fat16_fs.c:327-333 | the release walk writes only FREE, and only into clusters in [2, 0xFFF8) |
| FatTable.FreeingLowersInUse | src/fat16_fs.c:328-331 | freeing an entry in use lowers the count of entries in use by one |
| FatTable.CapIrrelevant | src/fat16_fs.c:327-333 | while the steps left are at least the entries in use, the cap never stops the walk, even on a cyclic chain |
| FatTable.ReleaseChainFrom | src/fat16_fs.c:327-333 | releasing a linked chain from its k-th cluster frees exactly the clusters from the k-th on |
| FatTable.ReleaseUndoesAllocation | src/fat16_fs.c:327-333 | releasing what an allocation linked gives back the table from before the allocation |
| ChainReader.ReadFrom | src/fat16_fs.c:200-218 | the walk only appends to what it has gathered, never past the size, and gathers the full size when the FAT has at most 0xFFF8 entries |
| ChainReader.ChainRead | src/fat16_fs.c:194-220 | an empty file reads as no bytes; a read never exceeds the size, and is the full size when the FAT has at most 0xFFF8 entries |
| ChainReader.ReadsShares | src/fat16_fs.c:202-217 | following a linked chain whose clusters hold the source's shares, from any cluster on, gathers the source |
| ChainReader.ReadBack | src/fat16_fs.c:194-220 | a file whose clusters were linked in order and hold its bytes reads back as those bytes |
| ChainReader.ReadFromFrame | src/fat16_fs.c:207-211 | the walk reads only the data region |
| RootDirectory.FindFrom | src/fat16_fs.c:152-160 | find_by_name gives the first regular slot with the 8.3 key, or none when no regular slot has it |
| RootDirectory.FreeSlotFrom | src/fat16_fs.c:162-167 | find_free_dir gives the first free slot, or none when none is free |
| RootDirectory.FoundIsOnly | src/fat16_fs.c:152-160 | with unique names, the slot found is the only one with the key |
| RootDirectory.ListingMembership | src/fat16_fs.c:258-265 | a line is listed exactly when some regular slot shows it |
| RootDirectory.ListingCounts | src/fat16_fs.c:258-268 | the listing has one line per regular slot, the total the engine prints |
| RootDirectory.Renamed | src/fat16_fs.c:311-316 | rename sets the 8.3 name and the modification stamp, and nothing else in the slot changes |
| RootDirectory.MarkedDeleted | src/fat16_fs.c:334 | the deleted slot is free and not regular, and only its first name byte changes |
| RootDirectory.NewEntry | src/fat16_fs.c:383-394 | the new slot has the 8.3 name, the archive flag alone, the first cluster and the size; reserved, tenths and high cluster are zero; creation, modification and access dates are the given date, creation and modification times the given time |
| RootDirectory.NewEntryAttributes | src/fat16_fs.c:383-394 | a created file shows its size, the same creation and modification stamps, and the archive flag alone |
| RootDirectory.RenameKeepsNamesUnique | src/fat16_fs.c:306-316 | after a rename the slot is found under the new name; unique names stay unique and the old name is found nowhere |
| RootDirectory.DeleteForgetsName | src/fat16_fs.c:324-334 | after a delete, names stay unique and the name is found nowhere |
| RootDirectory.PlacedIsFound | src/fat16_fs.c:383-388 | a new entry under a free name is found at its slot, and once marked deleted it is found nowhere |
| RootDirectory.CreateKeepsNamesUnique | src/fat16_fs.c:345-394 | the created file is found at the first free slot, and unique names stay unique |
| FileOperations.DeleteFound | src/fat16_fs.c:323-339 | a found file's delete releases its chain, marks its slot deleted and flushes the FAT and the root directory |
| FileOperations.Need | src/fat16_fs.c:353-354 | the clusters needed are at least one, exactly one for an empty source, and just enough to hold the source |
| FileOperations.ShareBounds | src/fat16_fs.c:365-371 | each share starts inside the source, and every share but the last is a whole cluster of it |
| FileOperations.CreateShare | src/fat16_fs.c:366-371 | the bytes read for a cluster fit in a cluster and in the source, and match what read_chain reads back |
| FileOperations.Fill | src/fat16_fs.c:372-373 | the buffer holds the cluster's share in front and the previous contents behind |
| FileOperations.LoopShare | src/fat16_fs.c:365-372 | the loop's read size is the share's size, the buffer after the read is Fill's, and the next share starts where this one ends |
| FileOperations.PassAt | src/fat16_fs.c:365-378 | a pass of the write loop writes the filled buffer at its cluster, and the loop goes on from there with that buffer |
| FileOperations.WriteFromKeeps | src/fat16_fs.c:375-377 | the write loop writes nothing before the cluster it has reached |
| FileOperations.WriteFromHolds | src/fat16_fs.c:365-378 | after the write loop every chain cluster holds its share of the source |
| FileOperations.WriteFromKeepsBoot | src/fat16_fs.c:375-377 | the write loop leaves the boot sector alone |
| FileOperations.WrittenReadsBack | src/fat16_fs.c:365-378 | the clusters the loop filled, once linked and flushed, read back as the source |
| FileOperations.CreateResult | src/fat16_fs.c:341-400 | a successful create found a free name, the first free slot and enough free clusters, and linked, wrote, filled and flushed them |
| FileOperations.CreateSucceeds | src/fat16_fs.c:341-400 | with a free name, a free slot and enough free clusters, create succeeds with that outcome |
| FileOperations.StoredSize | src/fat16_fs.c:389 | the stored size is below 2^32, congruent to the source's size modulo 2^32, and equal to it when the size is below 2^32 |
| FileOperations.CreateThenShow | src/fat16_fs.c:341-400 | a created file shows the source's bytes, its size, the stamps and the archive flag alone |
| FileOperations.DeleteAfterCreate | src/fat16_fs.c:323-400 | deleting a just-created file restores the FAT, forgets the name and leaves the used slot marked deleted |
| FileOperations.DeleteUndoesAllocation | src/fat16_fs.c:323-339 | deleting a file whose chain and slot were filled as create fills them frees both |
| FileOperations.RenameThenShow | src/fat16_fs.c:306-321 | after a rename the file shows the same bytes and attributes under the new name, but for the new modification stamp |
| FileOperations.DeletePersists | src/fat16_fs.c:323-339 | the image after a delete reopens to the new FAT and root directory |
| FileOperations.RenamePersists | src/fat16_fs.c:306-321 | the image after a rename reopens to the new root directory |
| FileOperations.CreatePersists | src/fat16_fs.c:341-400 | the image after a create reopens to the new FAT and root directory |
| Engine.Volume.constructor | src/fat16_fs.c:224-239 | the context holds what was loaded and the image |
| Engine.Volume.FindFreeClusterFrom | src/fat16_fs.c:169-175 | the search loop returns the least free cluster from max(start, 2), or 0 |
| Engine.Volume.Reserve | src/fat16_fs.c:178-188 | the reservation loop claims the first free clusters with EOF, and stops short only when every free cluster is claimed |
| Engine.Volume.Claim | src/fat16_fs.c:185-186 | a claim puts EOF into the found cluster, appends it to the chain and changes no other FAT entry |
| Engine.Volume.Rollback | src/fat16_fs.c:181-183 | the rollback loop puts FREE on the claimed clusters |
| Engine.Volume.Link | src/fat16_fs.c:189-190 | the linking loop and the final EOF leave the chain Linked, with line 190 corrected (see Findings) |
| Engine.Volume.AllocateChain | src/fat16_fs.c:177-192 | with too few free clusters it returns 0 and the FAT is unchanged; otherwise it links the first n free clusters and returns the first, with line 190 corrected (see Findings) |
| Engine.Volume.ReadChain | src/fat16_fs.c:194-220 | the read loop gives what the chain walk gives |
| Engine.Volume.FindByName | src/fat16_fs.c:152-160 | the scan gives find_by_name's slot |
| Engine.Volume.FindFreeDir | src/fat16_fs.c:162-167 | the scan gives the first free slot |
| Engine.Volume.ListDir | src/fat16_fs.c:252-269 | the listing loop gives a line per regular slot, in slot order, and their number |
| Engine.Volume.ShowFile | src/fat16_fs.c:271-280 | a missing name fails; otherwise the file's chain is read |
| Engine.Volume.ShowAttrs | src/fat16_fs.c:282-304 | a missing name fails; otherwise the size, decoded stamps and flags are shown |
| Engine.Volume.SaveFat | src/fat16_fs.c:38-46 | the FAT buffer is written to every FAT copy |
| Engine.Volume.SaveRoot | src/fat16_fs.c:66-73 | the root slots are written where the last FAT copy ends |
| Engine.Volume.Flush | src/fat16_fs.c:241-243 | save_fat then save_root |
| Engine.Volume.Rename | src/fat16_fs.c:306-321 | the method's status and new state are fat16_rename's |
| Engine.Volume.ReleaseChain | src/fat16_fs.c:327-333 | the release loop leaves the FAT the capped release walk gives |
| Engine.Volume.Delete | src/fat16_fs.c:323-339 | the method's status and new state are fat16_delete's |
| Engine.Volume.WriteChain | src/fat16_fs.c:365-378 | the write loop leaves the image the write loop's function gives |
| Engine.Volume.Create | src/fat16_fs.c:341-400 | the method's status and new state are fat16_create's, with the corrected allocation |
| Engine.OpenVolume | src/fat16_fs.c:224-239 | opening fails exactly when a load fails, with that load's error; otherwise the new context holds what was loaded |

## Left out

- Errors of `fseek`, `fwrite` and `fflush` on the image are not modelled. A save always succeeds, so the unreported failure of `fat16_flush` and the failed save after create's allocation (line 396, which does not roll back) have no counterpart.
- `malloc` failures are not modelled. That includes the failure at line 363, which returns without rolling back the allocation.
- Opening and measuring the host file in `fat16_create` (`fopen`, `fseek`, `ftell`, lines 342-351) are left out: the source is a byte sequence given whole.
- `fopen` of the image in `fat16_open` and all of `fat16_close` (freeing and closing) are left out: they are resource handling.
- `now_fat` (lines 104-109) is left out: it reads the host clock, and its packed date and time are parameters of rename and create. `EncodeDate` and `EncodeTime` model the encoders it calls.
- The `printf` text of every operation is left out. Messages become `Status` or `Result` values, and the listing is a sequence of (display name, size) lines.
- `toupper` is the C locale's: only a-z change.
- The command-line front end is not part of this model.
- Engine.Volume.Create: the source is never read short, so line 373's zero-fill after a short read has no counterpart. The buffer's first contents are a parameter (`bufInit`) in place of what `malloc` returns. The allocation follows the corrected `allocate_chain` (see Findings), not line 190 as written. The `(int)` cast of the cluster count at line 353 would wrap once the count reaches 2^31; such sources are excluded.
- FileOperations.Fill: the bytes of the last cluster past the source's end are the previous buffer contents, as the code leaves them, not zeros.
- Engine.Volume.ReadChain: when the walk reaches an end-of-chain cluster before the size is gathered, the engine returns a buffer whose tail was never written; the model returns only the gathered bytes.
- ChainReader.ReadFrom: the test for a FREE link at line 204 follows the range test at line 203, which already rejects cluster 0, so it has no counterpart.
- The FAT is taken to hold at most 0x10000 entries, since cluster numbers are `uint16_t`; `fat_entries` is a `uint32_t` and could be larger.
- Engine.OpenVolume: requires the loaded FAT to have at most 0x10000 entries, for the same reason.
- ChainReader.StepCap: `cluster_count + 8` is not reduced modulo 2^32 as the `uint32_t` sum would be.
- Engine.Volume.FindFreeClusterFrom: the search runs to the end of the FAT buffer, as the code does, not to `cluster_count + 2`.
- ChainReader.ReadBack: holds only for a FAT with no entry at 0xFFF7 or above and a chain no longer than the step cap.
- FileOperations.CreateThenShow: requires that the 8.3 name does not start with 0x00 or 0xE5 (such an entry looks free), that the FAT has fewer than 0xFFF7 entries, and that the chain fits the step cap. It also requires a source below 4 GiB: a larger one is stored with its size modulo 2^32 (FileOperations.StoredSize) and reads back truncated.
- FileOperations.DeleteAfterCreate: has the same requirements, with a chain of at most the step cap plus one.
- FileOperations.DeletePersists: requires at least one FAT copy and the FAT clear of the boot sector; otherwise a save may overwrite what the next open reads.
- FileOperations.RenamePersists: has the same requirement.
- FileOperations.CreatePersists: has the same requirement.
- NameCodec.To83ReadableRoundTrip: does not hold for a name whose extension is empty but whose name part holds a dot; see NameCodec.To83ReadableCounterexample.

## Findings

| source | as written | input that shows it | evidently intended | confidence | as-written member | corrected member |
|---|---|---|---|---|---|---|
| src/fat16_fs.c:190 | `allocate_chain` writes EOF into FAT entry `n - 1`, an index taken from the chain length, instead of into the chain's last cluster | an all-free five-entry FAT and n = 3: the chain is clusters 2, 3, 4, and the table ends as [0, 0, EOF, 4, EOF], so cluster 2 ends the chain after one cluster. The write can also land outside the chain: a one-cluster allocation always sets entry 0, which holds the media byte, to 0xFFFF, and entry n - 1 may be another file's link (FatTable.OneClusterOverwritesEntryZero, FatTable.AsWrittenAgreesIff) | EOF into `fat[out_chain[n - 1]]`, leaving [0, 0, 3, 4, EOF] | not executed | FatTable.AllocationTruncatesChain | Engine.Volume.AllocateChain |
