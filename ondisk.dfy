/** The on-disk records of a FAT16 volume (fat16.h): attribute flags, FAT entry
    sentinels, and the packed little-endian BootSector (62 bytes) and
    DirectoryEntry (32 bytes) layouts with their decoders and encoders. */
module OnDisk {
  import opened Common

  const ATTR_READ_ONLY: byte := 0x01
  const ATTR_HIDDEN: byte := 0x02
  const ATTR_SYSTEM: byte := 0x04
  const ATTR_VOLUME_ID: byte := 0x08
  const ATTR_DIRECTORY: byte := 0x10
  const ATTR_ARCHIVE: byte := 0x20

  const FAT16_FREE: u16 := 0x0000
  const FAT16_BAD: u16 := 0xFFF7
  const FAT16_EOF_MIN: u16 := 0xFFF8
  const FAT16_EOF: u16 := 0xFFFF

  /** First name byte of a slot that was never used, and of a deleted one. */
  const NEVER_USED: byte := 0x00
  const DELETED: byte := 0xE5

  const BOOT_SECTOR_SIZE: nat := 62
  const DIR_ENTRY_SIZE: nat := 32

  /** C's `attributes & flag` taken as a truth value. */
  predicate HasFlag(attributes: byte, flag: byte)
  {
    (attributes as bv8) & (flag as bv8) != 0
  }

  const ATTR_FLAGS: seq<byte> :=
    [ATTR_READ_ONLY, ATTR_HIDDEN, ATTR_SYSTEM, ATTR_VOLUME_ID, ATTR_DIRECTORY, ATTR_ARCHIVE]

  /** Flag i is bit i. */
  lemma FlagIsBit(i: nat)
    requires i < |ATTR_FLAGS|
    ensures ATTR_FLAGS[i] as bv8 == 1 << i
  {
  }

  lemma BitsMeet(i: nat, j: nat)
    requires i < 8 && j < 8
    ensures ((1 as bv8) << i) & ((1 as bv8) << j) != 0 <==> i == j
  {
  }

  /** The six attribute flags are single bits, pairwise distinct: flag j tests
      true on flag i exactly when i == j. */
  lemma FlagsAreDistinctBits()
    ensures forall i, j :: 0 <= i < |ATTR_FLAGS| && 0 <= j < |ATTR_FLAGS| ==>
      (HasFlag(ATTR_FLAGS[i], ATTR_FLAGS[j]) <==> i == j)
  {
    forall i, j | 0 <= i < |ATTR_FLAGS| && 0 <= j < |ATTR_FLAGS|
      ensures HasFlag(ATTR_FLAGS[i], ATTR_FLAGS[j]) <==> i == j
    {
      FlagIsBit(i);
      FlagIsBit(j);
      BitsMeet(i, j);
    }
  }

  /** BootSector: the BIOS parameter block at offset 0 of the image. */
  datatype BootSector = BootSector(
    jmpBoot: Bytes3,
    oemName: Bytes8,
    bytesPerSector: u16,
    sectorsPerCluster: byte,
    reservedSectors: u16,
    numFats: byte,
    rootEntryCount: u16,
    totalSectors16: u16,
    mediaType: byte,
    fatSize16: u16,
    sectorsPerTrack: u16,
    numHeads: u16,
    hiddenSectors: u32,
    totalSectors32: u32,
    driveNumber: byte,
    reserved1: byte,
    bootSignature: byte,
    volumeId: u32,
    volumeLabel: Bytes11,
    fsType: Bytes8)

  /** Bytes 0-10 of the packed BootSector: jump instruction and OEM name. */
  function BootIdent(b: BootSector): (r: seq<byte>)
    ensures |r| == 11 && r[0..3] == b.jmpBoot && r[3..11] == b.oemName
  {
    b.jmpBoot + b.oemName
  }

  /** Bytes 11-21: sector size, cluster size, reserved sectors, FAT count,
      root entries, 16-bit total and media type. */
  function BootCounts(b: BootSector): (r: seq<byte>)
    ensures |r| == 11
    ensures U16At(r, 0) == b.bytesPerSector && r[2] == b.sectorsPerCluster
    ensures U16At(r, 3) == b.reservedSectors && r[5] == b.numFats
    ensures U16At(r, 6) == b.rootEntryCount && U16At(r, 8) == b.totalSectors16
    ensures r[10] == b.mediaType
  {
    LE16(b.bytesPerSector) + [b.sectorsPerCluster] + LE16(b.reservedSectors) + [b.numFats]
      + LE16(b.rootEntryCount) + LE16(b.totalSectors16) + [b.mediaType]
  }

  /** Bytes 22-35: FAT size, disk geometry, hidden and 32-bit total sectors. */
  function BootSizes(b: BootSector): (r: seq<byte>)
    ensures |r| == 14
    ensures U16At(r, 0) == b.fatSize16 && U16At(r, 2) == b.sectorsPerTrack
    ensures U16At(r, 4) == b.numHeads && U32At(r, 6) == b.hiddenSectors
    ensures U32At(r, 10) == b.totalSectors32
  {
    var r := LE16(b.fatSize16) + LE16(b.sectorsPerTrack) + LE16(b.numHeads)
      + LE32(b.hiddenSectors) + LE32(b.totalSectors32);
    assert r[6..10] == LE32(b.hiddenSectors) && r[10..14] == LE32(b.totalSectors32);
    r
  }

  /** Bytes 36-61: the extended boot record. */
  function BootExtended(b: BootSector): (r: seq<byte>)
    ensures |r| == 26
    ensures r[0] == b.driveNumber && r[1] == b.reserved1 && r[2] == b.bootSignature
    ensures U32At(r, 3) == b.volumeId && r[7..18] == b.volumeLabel && r[18..26] == b.fsType
  {
    var r := [b.driveNumber, b.reserved1, b.bootSignature] + LE32(b.volumeId) + b.volumeLabel + b.fsType;
    assert r[3..7] == LE32(b.volumeId);
    r
  }

  /** The 62 bytes of the packed BootSector: bytes per sector at 11, sectors
      per cluster at 13, reserved sectors at 14, FAT count at 16, root
      entries at 17, 16-bit total at 19, FAT size at 22, 32-bit total at 32. */
  function EncodeBoot(b: BootSector): (r: seq<byte>)
    ensures |r| == BOOT_SECTOR_SIZE
    ensures r[0..11] == BootIdent(b) && r[11..22] == BootCounts(b)
    ensures r[22..36] == BootSizes(b) && r[36..62] == BootExtended(b)
    ensures U16At(r, 11) == b.bytesPerSector && r[13] == b.sectorsPerCluster
    ensures U16At(r, 14) == b.reservedSectors && r[16] == b.numFats
    ensures U16At(r, 17) == b.rootEntryCount && U16At(r, 19) == b.totalSectors16
    ensures U16At(r, 22) == b.fatSize16 && U32At(r, 32) == b.totalSectors32
  {
    var r := BootIdent(b) + BootCounts(b) + BootSizes(b) + BootExtended(b);
    assert r[0..11] == BootIdent(b) && r[11..22] == BootCounts(b);
    assert r[22..36] == BootSizes(b) && r[36..62] == BootExtended(b);
    U16InSlice(r, 11, 22, 0); U16InSlice(r, 11, 22, 3); U16InSlice(r, 11, 22, 6); U16InSlice(r, 11, 22, 8);
    U16InSlice(r, 22, 36, 0); U32InSlice(r, 22, 36, 10);
    r
  }

  /** Reads the packed BootSector out of its 62 bytes. */
  function DecodeBoot(s: seq<byte>): (b: BootSector)
    requires |s| == BOOT_SECTOR_SIZE
  {
    BootSector(
      s[0..3], s[3..11], U16At(s, 11), s[13], U16At(s, 14), s[16], U16At(s, 17),
      U16At(s, 19), s[21], U16At(s, 22), U16At(s, 24), U16At(s, 26), U32At(s, 28),
      U32At(s, 32), s[36], s[37], s[38], U32At(s, 39), s[43..54], s[54..62])
  }

  /** A 16-bit value read at offset `at` of a slice is the one read at
      `from + at` of the whole. */
  lemma U16InSlice(s: seq<byte>, from: nat, to: nat, at: nat)
    requires from <= to <= |s| && at + 2 <= to - from
    ensures U16At(s[from..to], at) == U16At(s, from + at)
  {
  }

  lemma U32InSlice(s: seq<byte>, from: nat, to: nat, at: nat)
    requires from <= to <= |s| && at + 4 <= to - from
    ensures U32At(s[from..to], at) == U32At(s, from + at)
  {
  }

  /** Decoding what was encoded gives the same boot sector back. */
  lemma BootRoundTrip(b: BootSector)
    ensures DecodeBoot(EncodeBoot(b)) == b
  {
    var r := EncodeBoot(b);
    U16InSlice(r, 22, 36, 2);
    U16InSlice(r, 22, 36, 4);
    U32InSlice(r, 22, 36, 6);
    U32InSlice(r, 36, 62, 3);
    assert r[0..3] == r[0..11][0..3] && r[3..11] == r[0..11][3..11];
    assert r[21] == r[11..22][10];
    assert r[36] == r[36..62][0] && r[37] == r[36..62][1] && r[38] == r[36..62][2];
    assert r[43..54] == r[36..62][7..18] && r[54..62] == r[36..62][18..26];
  }

  lemma BootCountsBytes(s: seq<byte>)
    requires |s| == BOOT_SECTOR_SIZE
    ensures BootCounts(DecodeBoot(s)) == s[11..22]
  {
    LE16OfU16At(s, 11); LE16OfU16At(s, 14); LE16OfU16At(s, 17); LE16OfU16At(s, 19);
    assert s[11..22] == s[11..13] + [s[13]] + s[14..16] + [s[16]] + s[17..19] + s[19..21] + [s[21]];
  }

  lemma BootSizesBytes(s: seq<byte>)
    requires |s| == BOOT_SECTOR_SIZE
    ensures BootSizes(DecodeBoot(s)) == s[22..36]
  {
    LE16OfU16At(s, 22); LE16OfU16At(s, 24); LE16OfU16At(s, 26);
    LE32OfU32At(s, 28); LE32OfU32At(s, 32);
    assert s[22..36] == s[22..24] + s[24..26] + s[26..28] + s[28..32] + s[32..36];
  }

  lemma BootExtendedBytes(s: seq<byte>)
    requires |s| == BOOT_SECTOR_SIZE
    ensures BootExtended(DecodeBoot(s)) == s[36..62]
  {
    LE32OfU32At(s, 39);
    assert s[36..62] == [s[36], s[37], s[38]] + s[39..43] + s[43..54] + s[54..62];
  }

  /** Encoding what was decoded gives the same 62 bytes back. */
  lemma BootBytesRoundTrip(s: seq<byte>)
    requires |s| == BOOT_SECTOR_SIZE
    ensures EncodeBoot(DecodeBoot(s)) == s
  {
    BootCountsBytes(s);
    BootSizesBytes(s);
    BootExtendedBytes(s);
    assert BootIdent(DecodeBoot(s)) == s[0..11];
    assert s == s[0..11] + s[11..22] + s[22..36] + s[36..62];
  }

  /** DirectoryEntry: one 32-byte slot of the root directory. */
  datatype DirEntry = DirEntry(
    filename: Bytes8,
    extension: Bytes3,
    attributes: byte,
    reserved: byte,
    creationTimeTenth: byte,
    creationTime: u16,
    creationDate: u16,
    lastAccessDate: u16,
    firstClusterHigh: u16,
    lastModTime: u16,
    lastModDate: u16,
    firstClusterLow: u16,
    fileSize: u32)

  /** Bytes 0-13 of a packed directory entry: name, extension, attributes,
      reserved byte and creation tenths. */
  function EntryHead(e: DirEntry): (r: seq<byte>)
    ensures |r| == 14 && r[0..8] == e.filename && r[8..11] == e.extension
    ensures r[11] == e.attributes && r[12] == e.reserved && r[13] == e.creationTimeTenth
  {
    e.filename + e.extension + [e.attributes, e.reserved, e.creationTimeTenth]
  }

  /** Bytes 14-21: creation time and date, access date, high cluster word. */
  function EntryCreation(e: DirEntry): (r: seq<byte>)
    ensures |r| == 8
    ensures U16At(r, 0) == e.creationTime && U16At(r, 2) == e.creationDate
    ensures U16At(r, 4) == e.lastAccessDate && U16At(r, 6) == e.firstClusterHigh
  {
    LE16(e.creationTime) + LE16(e.creationDate) + LE16(e.lastAccessDate) + LE16(e.firstClusterHigh)
  }

  /** Bytes 22-31: modification time and date, low cluster word, size. */
  function EntryContent(e: DirEntry): (r: seq<byte>)
    ensures |r| == 10
    ensures U16At(r, 0) == e.lastModTime && U16At(r, 2) == e.lastModDate
    ensures U16At(r, 4) == e.firstClusterLow && U32At(r, 6) == e.fileSize
  {
    var r := LE16(e.lastModTime) + LE16(e.lastModDate) + LE16(e.firstClusterLow) + LE32(e.fileSize);
    assert r[6..10] == LE32(e.fileSize);
    r
  }

  /** The 32 bytes of a packed directory entry: name at 0, extension at 8,
      attributes at 11, reserved at 12, tenths at 13, creation time at 14,
      creation date at 16, access date at 18, high cluster at 20, modification
      time at 22, modification date at 24, low cluster at 26, size at 28. */
  function EncodeEntry(e: DirEntry): (r: seq<byte>)
    ensures |r| == DIR_ENTRY_SIZE
    ensures r[0..14] == EntryHead(e) && r[14..22] == EntryCreation(e) && r[22..32] == EntryContent(e)
    ensures r[0..8] == e.filename && r[8..11] == e.extension
    ensures r[11] == e.attributes && r[12] == e.reserved && r[13] == e.creationTimeTenth
    ensures U16At(r, 14) == e.creationTime && U16At(r, 16) == e.creationDate
    ensures U16At(r, 18) == e.lastAccessDate && U16At(r, 20) == e.firstClusterHigh
    ensures U16At(r, 22) == e.lastModTime && U16At(r, 24) == e.lastModDate
    ensures U16At(r, 26) == e.firstClusterLow && U32At(r, 28) == e.fileSize
  {
    var r := EntryHead(e) + EntryCreation(e) + EntryContent(e);
    assert r[0..14] == EntryHead(e) && r[14..22] == EntryCreation(e) && r[22..32] == EntryContent(e);
    assert r[0..8] == r[0..14][0..8] && r[8..11] == r[0..14][8..11];
    U16InSlice(r, 14, 22, 0); U16InSlice(r, 14, 22, 2); U16InSlice(r, 14, 22, 4); U16InSlice(r, 14, 22, 6);
    U16InSlice(r, 22, 32, 0); U16InSlice(r, 22, 32, 2); U16InSlice(r, 22, 32, 4); U32InSlice(r, 22, 32, 6);
    r
  }

  /** Reads a packed directory entry out of its 32 bytes. */
  function DecodeEntry(s: seq<byte>): DirEntry
    requires |s| == DIR_ENTRY_SIZE
  {
    DirEntry(
      s[0..8], s[8..11], s[11], s[12], s[13], U16At(s, 14), U16At(s, 16), U16At(s, 18),
      U16At(s, 20), U16At(s, 22), U16At(s, 24), U16At(s, 26), U32At(s, 28))
  }

  /** Decoding what was encoded gives the same entry back. */
  lemma EntryRoundTrip(e: DirEntry)
    ensures DecodeEntry(EncodeEntry(e)) == e
  {
  }

  lemma EntryCreationBytes(s: seq<byte>)
    requires |s| == DIR_ENTRY_SIZE
    ensures EntryCreation(DecodeEntry(s)) == s[14..22]
  {
    LE16OfU16At(s, 14); LE16OfU16At(s, 16); LE16OfU16At(s, 18); LE16OfU16At(s, 20);
    assert s[14..22] == s[14..16] + s[16..18] + s[18..20] + s[20..22];
  }

  lemma EntryContentBytes(s: seq<byte>)
    requires |s| == DIR_ENTRY_SIZE
    ensures EntryContent(DecodeEntry(s)) == s[22..32]
  {
    LE16OfU16At(s, 22); LE16OfU16At(s, 24); LE16OfU16At(s, 26); LE32OfU32At(s, 28);
    assert s[22..32] == s[22..24] + s[24..26] + s[26..28] + s[28..32];
  }

  /** Encoding what was decoded gives the same 32 bytes back. */
  lemma EntryBytesRoundTrip(s: seq<byte>)
    requires |s| == DIR_ENTRY_SIZE
    ensures EncodeEntry(DecodeEntry(s)) == s
  {
    EntryCreationBytes(s);
    EntryContentBytes(s);
    assert EntryHead(DecodeEntry(s)) == s[0..14] by {
      assert s[0..14] == s[0..8] + s[8..11] + [s[11], s[12], s[13]];
    }
    assert s == s[0..14] + s[14..22] + s[22..32];
  }
}
