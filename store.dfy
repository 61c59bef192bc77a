/** The image file and the engine's in-memory copy of the volume's metadata:
    positioned reads and writes on the image (fseek followed by fread or
    fwrite), the byte form of the FAT and of the root directory, loading the
    three metadata regions (load_boot, load_fat, load_root) and saving the
    FAT copies and the root directory back (save_fat, save_root). */
module VolumeStore {
  import opened Common
  import opened OnDisk
  import opened Geometry
  import opened Records

  /** fseek to `off` then fwrite of `data`: bytes before `off` past the old
      end of the file read as zero; writing nothing leaves the file as is. */
  function Overwrite(img: seq<byte>, off: nat, data: seq<byte>): (r: seq<byte>)
    ensures |data| == 0 ==> r == img
    ensures |data| > 0 ==> |r| == Max(|img|, off + |data|)
    ensures |data| > 0 ==> r[off..off + |data|] == data
    ensures forall i :: 0 <= i < |r| && !(off <= i < off + |data|) ==>
      r[i] == if i < |img| then img[i] else 0
  {
    if |data| == 0 then img
    else
      var padded := if off <= |img| then img else img + Zeros(off - |img|);
      var r := padded[..off] + data + (if off + |data| <= |padded| then padded[off + |data|..] else []);
      assert r[off..off + |data|] == data;
      r
  }

  /** fseek to `off` then fread of `len` bytes: a short read fails, and a
      read of no bytes succeeds wherever the file position is. */
  function ReadAt(img: seq<byte>, off: nat, len: nat): (r: Option<seq<byte>>)
    ensures r.Some? <==> len == 0 || off + len <= |img|
    ensures r.Some? ==> |r.value| == len
    ensures off + len <= |img| ==> r == Some(img[off..off + len])
  {
    if len == 0 then
      assert off <= |img| ==> img[off..off] == [];
      Some([])
    else if off + len <= |img| then Some(img[off..off + len]) else None
  }

  /** Two images hold the same bytes in [lo, hi). */
  predicate Agree(a: seq<byte>, b: seq<byte>, lo: nat, hi: nat)
  {
    lo <= hi <= |a| && hi <= |b| && a[lo..hi] == b[lo..hi]
  }

  /** A write leaves every range that ends before it or starts after it
      alone. */
  lemma OverwriteFrame(img: seq<byte>, off: nat, data: seq<byte>, lo: nat, hi: nat)
    requires lo <= hi <= |img|
    requires hi <= off || off + |data| <= lo
    ensures Agree(Overwrite(img, off, data), img, lo, hi)
  {
    var r := Overwrite(img, off, data);
    assert forall i :: lo <= i < hi ==> r[i] == img[i];
    assert r[lo..hi] == img[lo..hi];
  }

  /** One FAT entry out of its two little-endian bytes. */
  function Dec16(s: seq<byte>): u16
    requires |s| == 2
  {
    U16At(s, 0)
  }

  /** The FAT as stored: each 16-bit entry little-endian, in order. */
  function EncodeFat(fat: seq<u16>): (r: seq<byte>)
    ensures |r| == 2 * |fat|
  {
    ConcatLength(fat, LE16, 2);
    Concat(fat, LE16)
  }

  /** The FAT as load_fat sees its bytes: floor(bytes / 2) 16-bit entries;
      an odd last byte belongs to the buffer but is no entry. */
  function DecodeFat(b: seq<byte>): (fat: seq<u16>)
    ensures 2 * |fat| + |Leftover(b, 2)| == |b|
  {
    ChunksLength(b, 2, Dec16);
    Chunks(b, 2, Dec16)
  }

  /** Saving a FAT and loading it back gives the same entries and the same
      odd trailing byte. */
  lemma FatRoundTrip(fat: seq<u16>, tail: seq<byte>)
    requires |tail| < 2
    ensures DecodeFat(EncodeFat(fat) + tail) == fat
    ensures Leftover(EncodeFat(fat) + tail, 2) == tail
  {
    ChunksOfConcat(fat, tail, 2, LE16, Dec16);
  }

  /** Loading FAT bytes and saving them back gives the same bytes. */
  lemma FatBytesRoundTrip(b: seq<byte>)
    ensures EncodeFat(DecodeFat(b)) + Leftover(b, 2) == b
  {
    forall s: seq<byte> | |s| == 2 ensures LE16(Dec16(s)) == s {
      LE16OfU16At(s, 0);
    }
    ConcatOfChunks(b, 2, LE16, Dec16);
  }

  /** The root directory as stored: 32 bytes per slot, in slot order. */
  function EncodeRoot(root: seq<DirEntry>): (r: seq<byte>)
    ensures |r| == DIR_ENTRY_SIZE * |root|
  {
    ConcatLength(root, EncodeEntry, DIR_ENTRY_SIZE);
    Concat(root, EncodeEntry)
  }

  /** The root directory as load_root reads it: one entry per 32 bytes. */
  function DecodeRoot(b: seq<byte>): (root: seq<DirEntry>)
    ensures |root| * DIR_ENTRY_SIZE + |Leftover(b, DIR_ENTRY_SIZE)| == |b|
  {
    ChunksLength(b, DIR_ENTRY_SIZE, DecodeEntry);
    Chunks(b, DIR_ENTRY_SIZE, DecodeEntry)
  }

  /** Saving a root directory and loading it back gives the same slots. */
  lemma RootRoundTrip(root: seq<DirEntry>)
    ensures DecodeRoot(EncodeRoot(root)) == root
  {
    forall e ensures DecodeEntry(EncodeEntry(e)) == e {
      EntryRoundTrip(e);
    }
    ChunksOfConcat(root, [], DIR_ENTRY_SIZE, EncodeEntry, DecodeEntry);
    assert EncodeRoot(root) + [] == EncodeRoot(root);
  }

  lemma EntryCodecInverse()
    ensures forall s: seq<byte> :: |s| == DIR_ENTRY_SIZE ==> EncodeEntry(DecodeEntry(s)) == s
  {
    forall s: seq<byte> | |s| == DIR_ENTRY_SIZE ensures EncodeEntry(DecodeEntry(s)) == s {
      EntryBytesRoundTrip(s);
    }
  }

  /** A multiple of 32 split as k whole slots and fewer than 32 bytes has
      no bytes left over. */
  lemma NoRemainder(n: nat, k: nat, left: nat)
    requires n % DIR_ENTRY_SIZE == 0 && k * DIR_ENTRY_SIZE + left == n && left < DIR_ENTRY_SIZE
    ensures left == 0
  {
    assert n == DIR_ENTRY_SIZE * (n / DIR_ENTRY_SIZE);
    assert DIR_ENTRY_SIZE * (n / DIR_ENTRY_SIZE - k) == left;
  }

  /** Loading root-directory bytes and saving them back gives the same bytes. */
  lemma RootBytesRoundTrip(b: seq<byte>)
    requires |b| % DIR_ENTRY_SIZE == 0
    ensures EncodeRoot(DecodeRoot(b)) == b
  {
    EntryCodecInverse();
    ConcatOfChunks(b, DIR_ENTRY_SIZE, EncodeEntry, DecodeEntry);
    NoRemainder(|b|, |DecodeRoot(b)|, |Leftover(b, DIR_ENTRY_SIZE)|);
    assert EncodeRoot(DecodeRoot(b)) + [] == EncodeRoot(DecodeRoot(b));
  }

  /** What the engine holds after fat16_open: the boot sector, the FAT
      entries (with the odd trailing byte of the FAT buffer, if any) and the
      root-directory slots. */
  datatype Mounted = Mounted(bpb: BootSector, fat: seq<u16>, fatTail: seq<byte>, root: seq<DirEntry>)

  /** The FAT buffer of fat_size_bytes bytes that save_fat writes. */
  function FatBytes(m: Mounted): (r: seq<byte>)
    ensures |r| == 2 * |m.fat| + |m.fatTail|
  {
    EncodeFat(m.fat) + m.fatTail
  }

  /** load_boot: the first 62 bytes. */
  function LoadBoot(img: seq<byte>): (r: Result<BootSector>)
    ensures r.Ok? <==> BOOT_SECTOR_SIZE <= |img|
  {
    match ReadAt(img, 0, BOOT_SECTOR_SIZE)
    case None => Err(BootUnreadable)
    case Some(s) => Ok(DecodeBoot(s))
  }

  /** load_fat: FAT copy 0, fat_size_16 * bytes_per_sector bytes after the
      reserved sectors. A FAT of no bytes fails as well: fread of a zero-size
      item reports no item read. */
  function LoadFat(img: seq<byte>, b: BootSector): (r: Result<(seq<u16>, seq<byte>)>)
    ensures r.Ok? ==> b.bytesPerSector > 0 && FatSize(b) > 0
    ensures r.Ok? ==> 2 * |r.value.0| + |r.value.1| == FatSize(b)
    ensures r.Ok? ==> |r.value.1| < 2
  {
    var size := FatSize(b);
    if size == 0 then Err(FatUnreadable)
    else match ReadAt(img, FatStart(b), size)
      case None => Err(FatUnreadable)
      case Some(s) => Ok((DecodeFat(s), Leftover(s, 2)))
  }

  /** load_root: root_entry_count slots where the last FAT copy ends. A
      directory of no slots always loads. */
  function LoadRoot(img: seq<byte>, b: BootSector): (r: Result<seq<DirEntry>>)
    ensures r.Ok? ==> |r.value| == b.rootEntryCount
    ensures b.rootEntryCount == 0 ==> r == Ok([])
  {
    match ReadAt(img, RootOffset(b), b.rootEntryCount * DIR_ENTRY_SIZE)
      case None => Err(RootUnreadable)
      case Some(s) => Ok(DecodeRoot(s))
  }

  /** fat16_open: boot sector, then FAT, then root directory; the first
      failure is reported. */
  function Open(img: seq<byte>): (r: Result<Mounted>)
    ensures r.Ok? ==> r.value.bpb.bytesPerSector > 0
  {
    match LoadBoot(img)
    case Err(e) => Err(e)
    case Ok(b) =>
      match LoadFat(img, b)
      case Err(e) => Err(e)
      case Ok(f) =>
        match LoadRoot(img, b)
        case Err(e) => Err(e)
        case Ok(root) => Ok(Mounted(b, f.0, f.1, root))
  }

  /** A mounted volume whose FAT and root have the sizes its boot sector
      gives them. */
  predicate Shaped(m: Mounted)
  {
    && m.bpb.bytesPerSector > 0
    && |m.fatTail| < 2
    && 2 * |m.fat| + |m.fatTail| == FatSize(m.bpb)
    && |m.root| == m.bpb.rootEntryCount
  }

  /** What fat16_open loads always has that shape, and a FAT of some bytes. */
  lemma OpenIsShaped(img: seq<byte>)
    requires Open(img).Ok?
    ensures Shaped(Open(img).value) && |FatBytes(Open(img).value)| > 0
  {
  }

  /** load_fat succeeds on any image holding the FAT buffer where copy 0
      belongs. */
  lemma LoadFatFinds(img: seq<byte>, b: BootSector, s: seq<byte>)
    requires |s| == FatSize(b) > 0
    requires FatStart(b) + |s| <= |img|
    requires img[FatStart(b)..FatStart(b) + |s|] == s
    ensures LoadFat(img, b) == Ok((DecodeFat(s), Leftover(s, 2)))
  {
  }

  /** load_root succeeds on any image holding the root slots where the last
      FAT copy ends. */
  lemma LoadRootFinds(img: seq<byte>, b: BootSector, s: seq<byte>)
    requires |s| == b.rootEntryCount * DIR_ENTRY_SIZE > 0
    requires RootOffset(b) + |s| <= |img| && img[RootOffset(b)..RootOffset(b) + |s|] == s
    ensures LoadRoot(img, b) == Ok(DecodeRoot(s))
  {
  }

  /** save_fat's last k copies: the FAT buffer written k times, one copy
      after the other from offset off. */
  function SaveCopies(img: seq<byte>, off: nat, fat: seq<byte>, k: nat): seq<byte>
    decreases k
  {
    if k == 0 then img
    else SaveCopies(Overwrite(img, off, fat), off + |fat|, fat, k - 1)
  }

  /** save_fat: every FAT copy, starting after the reserved sectors. */
  function SaveFat(img: seq<byte>, m: Mounted): seq<byte>
  {
    SaveCopies(img, FatStart(m.bpb), FatBytes(m), m.bpb.numFats)
  }

  /** save_root: every root-directory slot. */
  function SaveRoot(img: seq<byte>, m: Mounted): seq<byte>
  {
    Overwrite(img, RootOffset(m.bpb), EncodeRoot(m.root))
  }

  /** fat16_flush: save_fat then save_root. */
  function Flush(img: seq<byte>, m: Mounted): seq<byte>
  {
    SaveRoot(SaveFat(img, m), m)
  }

  /** Saving copies from off on leaves the bytes before off alone. */
  lemma {:induction false} SaveCopiesKeepsBelow(img: seq<byte>, off: nat, fat: seq<byte>, k: nat, lo: nat, hi: nat)
    requires lo <= hi <= off && hi <= |img|
    ensures Agree(SaveCopies(img, off, fat, k), img, lo, hi)
    decreases k
  {
    if k > 0 {
      var next := Overwrite(img, off, fat);
      OverwriteFrame(img, off, fat, lo, hi);
      SaveCopiesKeepsBelow(next, off + |fat|, fat, k - 1, lo, hi);
    } else {
      assert img[lo..hi] == img[lo..hi];
    }
  }

  /** Saving k copies from off on reaches the end of the last one. */
  lemma {:induction false} SaveCopiesReaches(img: seq<byte>, off: nat, fat: seq<byte>, k: nat)
    requires 0 < |fat| && k >= 1
    ensures |SaveCopies(img, off, fat, k)| >= off + k * |fat|
    decreases k
  {
    var next := Overwrite(img, off, fat);
    if k > 1 {
      SaveCopiesReaches(next, off + |fat|, fat, k - 1);
      assert off + |fat| + (k - 1) * |fat| == off + k * |fat|;
    }
  }

  /** Saving copies from off on leaves the first copy holding the FAT
      buffer. */
  lemma SaveCopiesHolds(img: seq<byte>, off: nat, fat: seq<byte>, k: nat)
    requires 0 < |fat| && k >= 1
    ensures var r := SaveCopies(img, off, fat, k);
      off + |fat| <= |r| && r[off..off + |fat|] == fat
  {
    var next := Overwrite(img, off, fat);
    HoldsWritten(img, off, fat);
    var r := SaveCopies(next, off + |fat|, fat, k - 1);
    SaveCopiesKeepsBelow(next, off + |fat|, fat, k - 1, off, off + |fat|);
    assert r[off..off + |fat|] == next[off..off + |fat|];
  }

  /** save_fat leaves copy 0 holding the FAT buffer and reaches the end
      of the last copy. */
  lemma SaveFatFacts(img: seq<byte>, m: Mounted)
    requires |FatBytes(m)| > 0 && m.bpb.numFats >= 1
    ensures var first := FatStart(m.bpb);
      var r := SaveFat(img, m);
      && first + |FatBytes(m)| <= |r| && r[first..first + |FatBytes(m)|] == FatBytes(m)
      && |r| >= first + m.bpb.numFats * |FatBytes(m)|
  {
    var first, f, n := FatStart(m.bpb), FatBytes(m), m.bpb.numFats;
    SaveCopiesHolds(img, first, f, n);
    SaveCopiesReaches(img, first, f, n);
  }

  /** save_fat leaves the bytes before the first FAT copy alone. */
  lemma SaveFatKeeps(img: seq<byte>, m: Mounted, lo: nat, hi: nat)
    requires |FatBytes(m)| > 0 && m.bpb.numFats >= 1
    requires lo <= hi <= FatStart(m.bpb) && hi <= |img|
    ensures Agree(SaveFat(img, m), img, lo, hi)
  {
    var first := FatStart(m.bpb);
    SaveCopiesKeepsBelow(img, first, FatBytes(m), m.bpb.numFats, lo, hi);
  }

  /** Saving k copies from off on leaves alone every byte past the end of
      the last copy. */
  lemma {:induction false} SaveCopiesKeepsAbove(img: seq<byte>, off: nat, fat: seq<byte>, k: nat, lo: nat, hi: nat)
    requires off + k * |fat| <= lo <= hi <= |img|
    ensures Agree(SaveCopies(img, off, fat, k), img, lo, hi)
    decreases k
  {
    if k > 0 {
      assert off + |fat| + (k - 1) * |fat| == off + k * |fat|;
      OverwriteFrame(img, off, fat, lo, hi);
      var next := Overwrite(img, off, fat);
      SaveCopiesKeepsAbove(next, off + |fat|, fat, k - 1, lo, hi);
    } else {
      assert img[lo..hi] == img[lo..hi];
    }
  }

  /** fat16_flush leaves the data region alone: every FAT copy and the root
      directory lie before it. */
  lemma FlushKeepsData(img: seq<byte>, m: Mounted, lo: nat, hi: nat)
    requires Shaped(m) && DataOffset(m.bpb) <= lo <= hi <= |img|
    ensures Agree(Flush(img, m), img, lo, hi)
  {
    var b := m.bpb;
    RootAfterCopies(b);
    RootBeforeData(b);
    SaveCopiesKeepsAbove(img, FatStart(b), FatBytes(m), b.numFats, lo, hi);
    var saved := SaveFat(img, m);
    OverwriteFrame(saved, RootOffset(b), EncodeRoot(m.root), lo, hi);
  }

  /** fat16_open succeeds when each of its three loads does. */
  lemma OpenOfParts(img: seq<byte>, b: BootSector, fat: seq<u16>, tail: seq<byte>, root: seq<DirEntry>)
    requires LoadBoot(img) == Ok(b) && LoadFat(img, b) == Ok((fat, tail)) && LoadRoot(img, b) == Ok(root)
    ensures Open(img) == Ok(Mounted(b, fat, tail, root))
  {
  }

  /** Where the root directory lies after the FAT copies. */
  lemma RootAfterFat(m: Mounted)
    requires Shaped(m) && m.bpb.numFats >= 1
    ensures RootOffset(m.bpb) == FatStart(m.bpb) + m.bpb.numFats * |FatBytes(m)|
    ensures FatStart(m.bpb) + |FatBytes(m)| <= RootOffset(m.bpb)
  {
    RootAfterCopies(m.bpb);
    MulMonotone(1, m.bpb.numFats, |FatBytes(m)|);
  }

  /** A flush leaves the boot sector in place. */
  lemma FlushKeepsBoot(img: seq<byte>, m: Mounted)
    requires Shaped(m) && |FatBytes(m)| > 0 && m.bpb.numFats >= 1
    requires LoadBoot(img) == Ok(m.bpb)
    requires BOOT_SECTOR_SIZE <= FatStart(m.bpb)
    ensures LoadBoot(Flush(img, m)) == Ok(m.bpb)
  {
    var saved := SaveFat(img, m);
    var out := Flush(img, m);
    RootAfterFat(m);
    SaveFatFacts(img, m);
    SaveFatKeeps(img, m, 0, BOOT_SECTOR_SIZE);
    OverwriteFrame(saved, RootOffset(m.bpb), EncodeRoot(m.root), 0, BOOT_SECTOR_SIZE);
    assert out[0..BOOT_SECTOR_SIZE] == img[0..BOOT_SECTOR_SIZE];
  }

  /** A write that starts at or after the end of a slice keeps the slice. */
  lemma KeepsSlice(x: seq<byte>, off: nat, data: seq<byte>, lo: nat, s: seq<byte>)
    requires lo + |s| <= off && lo + |s| <= |x| && x[lo..lo + |s|] == s
    ensures lo + |s| <= |Overwrite(x, off, data)| && Overwrite(x, off, data)[lo..lo + |s|] == s
  {
    OverwriteFrame(x, off, data, lo, lo + |s|);
  }

  /** A write of some bytes leaves them where it put them. */
  lemma HoldsWritten(x: seq<byte>, off: nat, data: seq<byte>)
    ensures off + |data| <= |Overwrite(x, off, data)| || |data| == 0
    ensures |data| > 0 ==> Overwrite(x, off, data)[off..off + |data|] == data
  {
  }

  /** After a flush, FAT copy 0 loads as the flushed FAT. */
  lemma FlushLoadsFat(img: seq<byte>, m: Mounted)
    requires Shaped(m) && |FatBytes(m)| > 0 && m.bpb.numFats >= 1
    ensures LoadFat(Flush(img, m), m.bpb) == Ok((m.fat, m.fatTail))
  {
    var b := m.bpb;
    var fat := FatBytes(m);
    var first := FatStart(b);
    var saved := SaveFat(img, m);
    SaveFatFacts(img, m);
    RootAfterFat(m);
    KeepsSlice(saved, RootOffset(b), EncodeRoot(m.root), first, fat);
    LoadFatFinds(Flush(img, m), b, fat);
    FatRoundTrip(m.fat, m.fatTail);
  }

  /** After save_root, the root directory loads as the saved one. */
  lemma SaveRootLoadsRoot(img: seq<byte>, m: Mounted)
    requires Shaped(m)
    ensures LoadRoot(SaveRoot(img, m), m.bpb) == Ok(m.root)
  {
    var root := EncodeRoot(m.root);
    if |root| > 0 {
      HoldsWritten(img, RootOffset(m.bpb), root);
      LoadRootFinds(SaveRoot(img, m), m.bpb, root);
      RootRoundTrip(m.root);
    }
  }

  /** After a flush, the root directory loads as the flushed one. */
  lemma FlushLoadsRoot(img: seq<byte>, m: Mounted)
    requires Shaped(m)
    ensures LoadRoot(Flush(img, m), m.bpb) == Ok(m.root)
  {
    SaveRootLoadsRoot(SaveFat(img, m), m);
  }

  /** Flushing and reopening gives back what was flushed, when the FAT
      copies lie clear of the boot sector and there is at least one copy
      (with none, load_fat would read the root directory's bytes). */
  lemma OpenAfterFlush(img: seq<byte>, m: Mounted)
    requires Shaped(m) && |FatBytes(m)| > 0 && m.bpb.numFats >= 1
    requires LoadBoot(img) == Ok(m.bpb)
    requires BOOT_SECTOR_SIZE <= FatStart(m.bpb)
    ensures Open(Flush(img, m)) == Ok(m)
  {
    FlushKeepsBoot(img, m);
    FlushLoadsFat(img, m);
    FlushLoadsRoot(img, m);
    OpenOfParts(Flush(img, m), m.bpb, m.fat, m.fatTail, m.root);
  }

  /** save_root keeps the boot sector when the FAT copies lie clear of it. */
  lemma SaveRootKeepsBoot(img: seq<byte>, m: Mounted)
    requires BOOT_SECTOR_SIZE <= FatStart(m.bpb) && BOOT_SECTOR_SIZE <= |img|
    ensures LoadBoot(SaveRoot(img, m)) == LoadBoot(img)
  {
    var b := m.bpb;
    RootAfterCopies(b);
    MulMonotone(0, b.numFats, FatSize(b));
    KeepsSlice(img, RootOffset(b), EncodeRoot(m.root), 0, img[0..BOOT_SECTOR_SIZE]);
  }

  /** save_root keeps FAT copy 0 when there is at least one copy. */
  lemma SaveRootKeepsFat(img: seq<byte>, m: Mounted)
    requires m.bpb.numFats >= 1 && 0 < FatSize(m.bpb) && FatStart(m.bpb) + FatSize(m.bpb) <= |img|
    ensures LoadFat(SaveRoot(img, m), m.bpb) == LoadFat(img, m.bpb)
  {
    var b := m.bpb;
    RootAfterCopies(b);
    MulMonotone(1, b.numFats, FatSize(b));
    var fat := img[FatStart(b)..FatStart(b) + FatSize(b)];
    KeepsSlice(img, RootOffset(b), EncodeRoot(m.root), FatStart(b), fat);
    LoadFatFinds(img, b, fat);
    LoadFatFinds(SaveRoot(img, m), b, fat);
  }

  /** save_root alone (as fat16_rename does it) on an image that opens to a
      volume with the same FAT and another root directory: reopening gives
      the saved root directory. */
  lemma OpenAfterSaveRoot(img: seq<byte>, m: Mounted, before: seq<DirEntry>)
    requires Open(img) == Ok(m.(root := before))
    requires |m.root| == m.bpb.rootEntryCount && m.bpb.numFats >= 1
    requires BOOT_SECTOR_SIZE <= FatStart(m.bpb)
    ensures Open(SaveRoot(img, m)) == Ok(m)
  {
    OpenIsShaped(img);
    SaveRootKeepsBoot(img, m);
    SaveRootKeepsFat(img, m);
    SaveRootLoadsRoot(img, m);
    OpenOfParts(SaveRoot(img, m), m.bpb, m.fat, m.fatTail, m.root);
  }

  /** Two images with the same bytes from lo on, and the same length when
      either reaches past lo. */
  predicate SameFrom(a: seq<byte>, b: seq<byte>, lo: nat)
  {
    (|a| <= lo && |b| <= lo) || (lo <= |a| == |b| && a[lo..] == b[lo..])
  }

  /** Reads at or after lo cannot tell such images apart. */
  lemma ReadAtFrame(a: seq<byte>, b: seq<byte>, lo: nat, off: nat, len: nat)
    requires SameFrom(a, b, lo) && lo <= off
    ensures ReadAt(a, off, len) == ReadAt(b, off, len)
  {
    if len > 0 && off + len <= |a| {
      assert lo <= |a| == |b| && a[lo..] == b[lo..];
      forall i | off <= i < off + len ensures a[i] == b[i] {
        assert a[i] == a[lo..][i - lo];
      }
      assert a[off..off + len] == b[off..off + len];
    }
  }

  /** A read inside a range two images agree on reads the same bytes. */
  lemma ReadAtAgree(a: seq<byte>, b: seq<byte>, off: nat, len: nat)
    requires Agree(a, b, off, off + len)
    ensures ReadAt(a, off, len) == ReadAt(b, off, len)
  {
  }

  /** save_root leaves the data region, and whether the image reaches it,
      alone. */
  lemma SaveRootKeepsData(img: seq<byte>, m: Mounted)
    requires Shaped(m)
    ensures SameFrom(SaveRoot(img, m), img, DataOffset(m.bpb))
  {
    var lo := DataOffset(m.bpb);
    var root := EncodeRoot(m.root);
    var out := SaveRoot(img, m);
    RootBeforeData(m.bpb);
    if |root| > 0 && lo < |img| {
      assert |out| == |img|;
      assert forall i :: lo <= i < |img| ==> out[i] == img[i];
      assert out[lo..] == img[lo..];
    }
  }
}
