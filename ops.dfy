/** What each engine operation does to the volume, as functions of the
    volume's state: fat16_show_file, fat16_show_attrs, fat16_list_dir,
    fat16_rename, fat16_delete and fat16_create. The engine's printf
    messages become the Status or Result each operation returns. */
module FileOperations {
  import opened Common
  import opened OnDisk
  import opened Geometry
  import opened NameCodec
  import opened TimestampCodec
  import opened VolumeStore
  import opened FatTable
  import opened ChainReader
  import opened RootDirectory

  /** What an operation reports instead of its message. */
  datatype Status = Success | Failure(error: Error)

  /** The part of the engine's context that operations change: the FAT, the
      root directory and the image file. */
  datatype Disk = Disk(fat: Fat, root: seq<DirEntry>, image: seq<byte>)

  function MountedOf(b: BootSector, tail: seq<byte>, d: Disk): Mounted
  {
    Mounted(b, d.fat, tail, d.root)
  }

  /** A disk whose FAT and root directory have the sizes the boot sector
      gives them. */
  predicate Fits(b: BootSector, tail: seq<byte>, d: Disk)
  {
    Shaped(MountedOf(b, tail, d))
  }

  /** fat16_show_file: the bytes of the named file, or why they could not
      be read. */
  function ShowFile(b: BootSector, d: Disk, name: seq<byte>): Result<seq<byte>>
    requires b.bytesPerSector > 0
  {
    match FindEntry(d.root, name)
    case None => Err(NotFound)
    case Some(i) => ChainRead(d.image, b, d.fat, d.root[i].firstClusterLow, d.root[i].fileSize as nat)
  }

  /** fat16_show_attrs: the attributes of the named file. */
  function ShowAttrs(d: Disk, name: seq<byte>): Result<Attributes>
  {
    match FindEntry(d.root, name)
    case None => Err(NotFound)
    case Some(i) => Ok(AttributesOf(d.root[i]))
  }

  /** fat16_rename: rename the file called `from` to `to`, stamp the
      modification time and save the root directory; refuse when `from` is
      missing or `to` is taken (even by `from` itself). */
  function Rename(b: BootSector, tail: seq<byte>, d: Disk, from: seq<byte>, to: seq<byte>, date: u16, time: u16): (Status, Disk)
  {
    match FindEntry(d.root, from)
    case None => (Failure(NotFound), d)
    case Some(i) =>
      if FindEntry(d.root, to).Some? then (Failure(AlreadyExists), d)
      else
        var root := d.root[i := Renamed(d.root[i], To83(to), date, time)];
        (Success, d.(root := root, image := SaveRoot(d.image, Mounted(b, d.fat, tail, root))))
  }

  /** fat16_delete: release the file's chain, mark its slot deleted and
      save the FAT and the root directory. */
  function Delete(b: BootSector, tail: seq<byte>, d: Disk, name: seq<byte>): (Status, Disk)
    requires b.bytesPerSector > 0
  {
    match FindEntry(d.root, name)
    case None => (Failure(NotFound), d)
    case Some(i) =>
      var fat := Release(d.fat, d.root[i].firstClusterLow, 0, StepCap(b));
      var root := d.root[i := MarkedDeleted(d.root[i])];
      (Success, Disk(fat, root, Flush(d.image, Mounted(b, fat, tail, root))))
  }

  /** fat16_delete's outcome once the name is found at slot i. */
  lemma DeleteFound(b: BootSector, tail: seq<byte>, d: Disk, name: seq<byte>, i: nat)
    requires b.bytesPerSector > 0 && FindEntry(d.root, name) == Some(i)
    ensures var fat := Release(d.fat, d.root[i].firstClusterLow, 0, StepCap(b));
      var root := d.root[i := MarkedDeleted(d.root[i])];
      Delete(b, tail, d, name) == (Success, Disk(fat, root, Flush(d.image, Mounted(b, fat, tail, root))))
  {
  }

  /** The clusters fat16_create reserves for `size` bytes: size / cluster
      size rounded up, and at least one. */
  function Need(b: BootSector, size: nat): (n: nat)
    requires b.bytesPerSector > 0 && Derive(b).clusterSize > 0
    ensures n >= 1
    ensures size == 0 ==> n == 1
    ensures size > 0 ==> ShareStart(b, n - 1) < size <= ShareStart(b, n)
  {
    var cs := Derive(b).clusterSize;
    var q := (size + cs - 1) / cs;
    CeilDivision(size, cs);
    if q <= 0 then 1 else q
  }

  /** The k-th share of a source starts inside it, and every share but the
      last is a whole cluster of it. */
  lemma ShareBounds(b: BootSector, size: nat, i: nat)
    requires b.bytesPerSector > 0 && Derive(b).clusterSize > 0 && i < Need(b, size)
    ensures ShareStart(b, i) <= size
    ensures i < Need(b, size) - 1 ==> ShareStart(b, i) + Derive(b).clusterSize <= size
  {
    var cs := Derive(b).clusterSize;
    var need := Need(b, size);
    if size > 0 {
      MulMonotone(i, need - 1, cs);
      ShareStartNext(b, i);
      if i < need - 1 {
        MulMonotone(i + 1, need - 1, cs);
      }
    }
  }

  /** The bytes fat16_create reads from the source for cluster i of the
      chain: a whole cluster, except for the last one, which takes what is
      left; read_chain reads back the same amount. */
  function CreateShare(b: BootSector, size: nat, i: nat): (n: nat)
    requires b.bytesPerSector > 0 && Derive(b).clusterSize > 0 && i < Need(b, size)
    ensures n <= Derive(b).clusterSize
    ensures ShareStart(b, i) + n <= size
    ensures n == ToRead(b, ShareStart(b, i), size)
  {
    var cs := Derive(b).clusterSize;
    var start := ShareStart(b, i);
    ShareBounds(b, size, i);
    if i == Need(b, size) - 1 then Min(Max(size - start, 0), cs) else cs
  }

  /** The cluster buffer after fat16_create's read for cluster i: the
      source's share in front, the bytes left from the previous cluster (or
      the buffer's first contents) behind. The engine zero-fills only after
      a short read, and a read of the source is never short. */
  function Fill(b: BootSector, src: seq<byte>, buf: seq<byte>, i: nat): (r: seq<byte>)
    requires b.bytesPerSector > 0 && Derive(b).clusterSize > 0 && i < Need(b, |src|)
    requires |buf| == Derive(b).clusterSize
    ensures |r| == |buf|
    ensures var start := ShareStart(b, i);
      r[..CreateShare(b, |src|, i)] == src[start..start + CreateShare(b, |src|, i)]
  {
    var start := ShareStart(b, i);
    var n := CreateShare(b, |src|, i);
    var r := src[start..start + n] + buf[n..];
    assert r[..n] == src[start..start + n];
    r
  }

  /** fat16_create's write loop from cluster i of the chain on: the image
      after its passes, each of which fills the buffer and writes the whole
      cluster. */
  function WriteFrom(img: seq<byte>, b: BootSector, chain: seq<u16>, src: seq<byte>, buf: seq<byte>, i: nat): seq<byte>
    requires b.bytesPerSector > 0 && Derive(b).clusterSize > 0 && |chain| == Need(b, |src|)
    requires |buf| == Derive(b).clusterSize
    requires forall k :: 0 <= k < |chain| ==> chain[k] >= 2
  {
    Run((img, buf), PassStep(b, chain, src), i, |chain|).0
  }

  /** The share the create loop computes for cluster i, from the cluster
      size and what is left of the source, is CreateShare's, and the next
      share starts where it ends. */
  lemma LoopShare(b: BootSector, src: seq<byte>, buf: seq<byte>, i: nat, pos: nat, toRead: int)
    requires b.bytesPerSector > 0 && Derive(b).clusterSize > 0 && i < Need(b, |src|)
    requires |buf| == Derive(b).clusterSize && pos == ShareStart(b, i)
    requires toRead == if i == Need(b, |src|) - 1 then Min(Max(|src| - pos, 0), Derive(b).clusterSize) else Derive(b).clusterSize
    ensures 0 <= toRead <= |buf| && pos + toRead <= |src|
    ensures Fill(b, src, buf, i) == src[pos..pos + toRead] + buf[toRead..]
    ensures i + 1 < Need(b, |src|) ==> ShareStart(b, i + 1) == pos + toRead
  {
    assert toRead == CreateShare(b, |src|, i);
    ShareStartNext(b, i);
  }

  /** One pass of the create loop on (image, buffer): fill the buffer with
      the pass's share and write it at the pass's cluster. A pass outside
      the chain leaves the state alone. */
  function Pass(b: BootSector, chain: seq<u16>, src: seq<byte>, st: (seq<byte>, seq<byte>), j: nat): (seq<byte>, seq<byte>)
  {
    if b.bytesPerSector > 0 && Derive(b).clusterSize > 0 && |chain| == Need(b, |src|)
      && |st.1| == Derive(b).clusterSize && j < |chain| && chain[j] >= 2
    then
      var filled := Fill(b, src, st.1, j);
      (Overwrite(st.0, ClusterOffset(b, chain[j] as nat), filled), filled)
    else st
  }

  /** Pass for a given chain and source, as the step of an iteration. */
  function PassStep(b: BootSector, chain: seq<u16>, src: seq<byte>): ((seq<byte>, seq<byte>), nat) -> (seq<byte>, seq<byte>)
  {
    (st, j) => Pass(b, chain, src, st, j)
  }

  /** The states of the create loop: the image and the buffer before each
      pass, and after the last. */
  function Trace(img: seq<byte>, b: BootSector, chain: seq<u16>, src: seq<byte>, buf: seq<byte>): seq<(seq<byte>, seq<byte>)>
  {
    Iterate((img, buf), PassStep(b, chain, src), 0, |chain|)
  }

  /** Pass i of the create loop, as the iteration's step and as the first
      step of WriteFrom. */
  lemma PassAt(img: seq<byte>, b: BootSector, chain: seq<u16>, src: seq<byte>, buf: seq<byte>, i: nat)
    requires b.bytesPerSector > 0 && Derive(b).clusterSize > 0 && |chain| == Need(b, |src|)
    requires |buf| == Derive(b).clusterSize
    requires forall k :: 0 <= k < |chain| ==> chain[k] >= 2
    requires i < |chain|
    ensures var filled := Fill(b, src, buf, i);
      var next := Overwrite(img, ClusterOffset(b, chain[i] as nat), filled);
      && PassStep(b, chain, src)((img, buf), i) == (next, filled)
      && WriteFrom(img, b, chain, src, buf, i) == WriteFrom(next, b, chain, src, filled, i + 1)
  {
  }

  /** What fat16_create demands: a cluster of some bytes (it divides by the
      cluster size), a cluster count that fits the int it is cast to, and a
      buffer of one cluster. */
  predicate CreateArgs(b: BootSector, src: seq<byte>, bufInit: seq<byte>)
  {
    && b.bytesPerSector > 0 && Derive(b).clusterSize > 0
    && Need(b, |src|) < 0x8000_0000 && |bufInit| == Derive(b).clusterSize
  }

  /** The file_size fat16_create stores: the uint32_t cast of the source's
      long size, which keeps it modulo 2^32. */
  function StoredSize(n: nat): (r: u32)
    ensures r as nat < 0x1_0000_0000 && (r as nat - n) % 0x1_0000_0000 == 0
    ensures n < 0x1_0000_0000 ==> r as nat == n
  {
    (n % 0x1_0000_0000) as u32
  }

  /** fat16_create: refuse a taken name or a full directory; reserve the
      clusters (refusing when too few are free, with the FAT as before);
      write the source into them; fill the first free slot; save the FAT
      and the root directory. */
  function Create(b: BootSector, tail: seq<byte>, d: Disk, src: seq<byte>, dest: seq<byte>, date: u16, time: u16, bufInit: seq<byte>): (Status, Disk)
    requires CreateArgs(b, src, bufInit)
  {
    if FindEntry(d.root, dest).Some? then (Failure(AlreadyExists), d)
    else match FreeSlot(d.root)
      case None => (Failure(DirectoryFull), d)
      case Some(slot) =>
        var need := Need(b, |src|);
        if |FreeClusters(d.fat)| < need then (Failure(NoFreeSpace), d)
        else
          var chain := FreeClusters(d.fat)[..need];
          FreePrefixAscending(d.fat, need);
          var fat := Allocated(d.fat, need);
          var written := WriteFrom(d.image, b, chain, src, bufInit, 0);
          var root := d.root[slot := NewEntry(To83(dest), chain[0], StoredSize(|src|), date, time)];
          (Success, Disk(fat, root, Flush(written, Mounted(b, fat, tail, root))))
  }

  /** The create loop writes only at or after the cluster it has reached. */
  lemma {:induction false} WriteFromKeeps(img: seq<byte>, b: BootSector, fat: Fat, chain: seq<u16>, src: seq<byte>, buf: seq<byte>, i: nat, lo: nat, hi: nat)
    requires b.bytesPerSector > 0 && Derive(b).clusterSize > 0 && |chain| == Need(b, |src|)
    requires |buf| == Derive(b).clusterSize && Ascending(fat, chain)
    requires lo <= hi <= |img| && (i < |chain| ==> hi <= ClusterOffset(b, chain[i] as nat))
    ensures Agree(WriteFrom(img, b, chain, src, buf, i), img, lo, hi)
    decreases |chain| - i
  {
    if i < |chain| {
      var filled := Fill(b, src, buf, i);
      var next := Overwrite(img, ClusterOffset(b, chain[i] as nat), filled);
      PassAt(img, b, chain, src, buf, i);
      OverwriteFrame(img, ClusterOffset(b, chain[i] as nat), filled, lo, hi);
      if i + 1 < |chain| {
        ClusterLayout(b, chain[i] as nat, chain[i + 1] as nat);
      }
      WriteFromKeeps(next, b, fat, chain, src, filled, i + 1, lo, hi);
    }
  }

  /** After the create loop, every cluster of the chain from the i-th on
      holds its share of the source. */
  lemma {:induction false} WriteFromHolds(img: seq<byte>, b: BootSector, fat: Fat, chain: seq<u16>, src: seq<byte>, buf: seq<byte>, i: nat)
    requires b.bytesPerSector > 0 && Derive(b).clusterSize > 0 && |chain| == Need(b, |src|)
    requires |buf| == Derive(b).clusterSize && Ascending(fat, chain)
    ensures forall k :: i <= k < |chain| ==> HoldsShare(WriteFrom(img, b, chain, src, buf, i), b, chain[k], src, k)
    decreases |chain| - i
  {
    if i < |chain| {
      var filled := Fill(b, src, buf, i);
      var next := Overwrite(img, ClusterOffset(b, chain[i] as nat), filled);
      PassAt(img, b, chain, src, buf, i);
      WriteFromHolds(next, b, fat, chain, src, filled, i + 1);
      WriteFromHoldsFirst(img, b, fat, chain, src, buf, i);
    }
  }

  /** The cluster the create loop writes at step i keeps its share through
      the later steps. */
  lemma WriteFromHoldsFirst(img: seq<byte>, b: BootSector, fat: Fat, chain: seq<u16>, src: seq<byte>, buf: seq<byte>, i: nat)
    requires b.bytesPerSector > 0 && Derive(b).clusterSize > 0 && |chain| == Need(b, |src|)
    requires |buf| == Derive(b).clusterSize && Ascending(fat, chain) && i < |chain|
    ensures var filled := Fill(b, src, buf, i);
      var next := Overwrite(img, ClusterOffset(b, chain[i] as nat), filled);
      HoldsShare(WriteFrom(next, b, chain, src, filled, i + 1), b, chain[i], src, i)
  {
    var off := ClusterOffset(b, chain[i] as nat);
    var filled := Fill(b, src, buf, i);
    var next := Overwrite(img, off, filled);
    var n := CreateShare(b, |src|, i);
    var out := WriteFrom(next, b, chain, src, filled, i + 1);
    HoldsWritten(img, off, filled);
    assert Agree(out, next, off, off + n) by {
      if i + 1 < |chain| {
        ClusterLayout(b, chain[i] as nat, chain[i + 1] as nat);
      }
      WriteFromKeeps(next, b, fat, chain, src, filled, i + 1, off, off + n);
    }
    HoldsPrefix(out, next, b, chain[i], filled, src, i);
  }

  /** An image that agrees with a write of a cluster buffer on the share's
      bytes holds the share. */
  lemma HoldsPrefix(out: seq<byte>, next: seq<byte>, b: BootSector, c: u16, data: seq<byte>, src: seq<byte>, k: nat)
    requires b.bytesPerSector > 0 && c >= 2 && ShareStart(b, k) <= |src|
    requires var off := ClusterOffset(b, c as nat);
      var n := ToRead(b, ShareStart(b, k), |src|);
      && n <= |data| && off + |data| <= |next| && next[off..off + |data|] == data
      && Agree(out, next, off, off + n) && data[..n] == src[ShareStart(b, k)..ShareStart(b, k) + n]
    ensures HoldsShare(out, b, c, src, k)
  {
    var off := ClusterOffset(b, c as nat);
    var n := ToRead(b, ShareStart(b, k), |src|);
    assert next[off..off + n] == next[off..off + |data|][..n];
  }

  /** A flush keeps every share the data region holds. */
  lemma FlushKeepsShare(img: seq<byte>, m: Mounted, c: u16, src: seq<byte>, k: nat)
    requires Shaped(m) && c >= 2 && HoldsShare(img, m.bpb, c, src, k)
    ensures HoldsShare(Flush(img, m), m.bpb, c, src, k)
  {
    var b := m.bpb;
    var start := ShareStart(b, k);
    if start <= |src| {
      var n := ToRead(b, start, |src|);
      var off := ClusterOffset(b, c as nat);
      if n > 0 {
        ClusterLayout(b, c as nat, c as nat + 1);
        FlushKeepsData(img, m, off, off + n);
        ReadAtAgree(Flush(img, m), img, off, n);
      }
    }
  }

  /** A file fat16_create has just written reads back, through
      fat16_show_file, as the source's bytes, and fat16_show_attrs shows its
      size, the stamps and the archive flag alone. The chain must fit the
      step cap, the FAT must hold no entry at 0xFFF7 or above, and the 8.3
      name must not start with a free-slot mark. */
  lemma CreateThenShow(b: BootSector, tail: seq<byte>, d: Disk, src: seq<byte>, dest: seq<byte>, date: u16, time: u16, bufInit: seq<byte>)
    requires CreateArgs(b, src, bufInit) && Fits(b, tail, d)
    requires Occupies(To83(dest)) && |d.fat| <= FAT16_BAD as nat && Need(b, |src|) <= StepCap(b)
    requires |src| < 0x1_0000_0000
    requires Create(b, tail, d, src, dest, date, time, bufInit).0 == Success
    ensures var after := Create(b, tail, d, src, dest, date, time, bufInit).1;
      && ShowFile(b, after, dest) == Ok(src)
      && ShowAttrs(after, dest) == Ok(Attributes(|src| as u32, DecodeDate(date), DecodeTime(time),
           DecodeDate(date), DecodeTime(time), false, false, false, true))
  {
    var slot, chain := CreateResult(b, tail, d, src, dest, date, time, bufInit);
    var after := Create(b, tail, d, src, dest, date, time, bufInit).1;
    PlacedIsFound(d.root, slot, To83(dest), NewEntry(To83(dest), chain[0], StoredSize(|src|), date, time));
    NewEntryAttributes(To83(dest), chain[0], StoredSize(|src|), date, time);
    WrittenReadsBack(d.image, b, d.fat, chain, src, bufInit, MountedOf(b, tail, after));
  }

  /** The clusters the create loop filled, once linked and flushed, read
      back as the source. */
  lemma WrittenReadsBack(img: seq<byte>, b: BootSector, fat: Fat, chain: seq<u16>, src: seq<byte>, buf: seq<byte>, m: Mounted)
    requires CreateArgs(b, src, buf) && |chain| == Need(b, |src|) <= StepCap(b)
    requires |chain| <= |FreeClusters(fat)| && chain == FreeClusters(fat)[..|chain|]
    requires Ascending(fat, chain) && |fat| <= FAT16_BAD as nat
    requires Shaped(m) && m.bpb == b && m.fat == Allocated(fat, |chain|)
    ensures ChainRead(Flush(WriteFrom(img, b, chain, src, buf, 0), m), b, m.fat, chain[0], |src|) == Ok(src)
  {
    if |src| > 0 {
      var written := WriteFrom(img, b, chain, src, buf, 0);
      WriteFromHolds(img, b, fat, chain, src, buf, 0);
      forall k | 0 <= k < |chain| ensures HoldsShare(Flush(written, m), b, chain[k], src, k) {
        FlushKeepsShare(written, m, chain[k], src, k);
      }
      ReadBack(Flush(written, m), b, m.fat, chain, src);
    }
  }

  /** Deleting a file fat16_create has just written gives the FAT back as
      it was before the create, and the name is found nowhere; the
      directory differs from the old one only in the used slot, now marked
      deleted. */
  lemma DeleteAfterCreate(b: BootSector, tail: seq<byte>, d: Disk, src: seq<byte>, dest: seq<byte>, date: u16, time: u16, bufInit: seq<byte>)
    requires CreateArgs(b, src, bufInit)
    requires Occupies(To83(dest)) && |d.fat| <= FAT16_BAD as nat && Need(b, |src|) <= StepCap(b) + 1
    requires Create(b, tail, d, src, dest, date, time, bufInit).0 == Success
    ensures var created := Create(b, tail, d, src, dest, date, time, bufInit).1;
      var slot := FreeSlot(d.root).value;
      && Delete(b, tail, created, dest).0 == Success
      && Delete(b, tail, created, dest).1.fat == d.fat
      && Delete(b, tail, created, dest).1.root == d.root[slot := MarkedDeleted(created.root[slot])]
      && FindEntry(Delete(b, tail, created, dest).1.root, dest).None?
  {
    var created := Create(b, tail, d, src, dest, date, time, bufInit).1;
    var slot, chain := CreateResult(b, tail, d, src, dest, date, time, bufInit);
    DeleteUndoesAllocation(b, tail, d, created, dest, |chain|, slot, created.root[slot]);
  }

  /** What a successful fat16_create did: the name was free, a slot was
      free, enough clusters were free; the first free clusters were linked
      in order, the source written into them, the first free slot filled
      and everything flushed. */
  lemma CreateResult(b: BootSector, tail: seq<byte>, d: Disk, src: seq<byte>, dest: seq<byte>, date: u16, time: u16, bufInit: seq<byte>)
    returns (slot: nat, chain: seq<u16>)
    requires CreateArgs(b, src, bufInit)
    requires Create(b, tail, d, src, dest, date, time, bufInit).0 == Success
    ensures FindEntry(d.root, dest).None? && FreeSlot(d.root) == Some(slot)
    ensures 1 <= Need(b, |src|) <= |FreeClusters(d.fat)|
    ensures chain == FreeClusters(d.fat)[..Need(b, |src|)] && Ascending(d.fat, chain)
    ensures var created := Create(b, tail, d, src, dest, date, time, bufInit).1;
      && created.fat == Allocated(d.fat, |chain|)
      && created.root == d.root[slot := NewEntry(To83(dest), chain[0], StoredSize(|src|), date, time)]
      && created.image == Flush(WriteFrom(d.image, b, chain, src, bufInit, 0), MountedOf(b, tail, created))
  {
    slot := FreeSlot(d.root).value;
    chain := FreeClusters(d.fat)[..Need(b, |src|)];
    FreePrefixAscending(d.fat, |chain|);
  }

  /** fat16_create's outcome once the name is free, a slot is free and
      enough clusters are free. */
  lemma CreateSucceeds(b: BootSector, tail: seq<byte>, d: Disk, src: seq<byte>, dest: seq<byte>, date: u16, time: u16, bufInit: seq<byte>, slot: nat)
    requires CreateArgs(b, src, bufInit)
    requires FindEntry(d.root, dest).None? && FreeSlot(d.root) == Some(slot)
    requires Need(b, |src|) <= |FreeClusters(d.fat)|
    ensures var chain := FreeClusters(d.fat)[..Need(b, |src|)];
      && Ascending(d.fat, chain)
      && var fat := Allocated(d.fat, Need(b, |src|));
      var root := d.root[slot := NewEntry(To83(dest), chain[0], StoredSize(|src|), date, time)];
      Create(b, tail, d, src, dest, date, time, bufInit)
        == (Success, Disk(fat, root, Flush(WriteFrom(d.image, b, chain, src, bufInit, 0), Mounted(b, fat, tail, root))))
  {
    FreePrefixAscending(d.fat, Need(b, |src|));
  }

  /** The create loop leaves the boot sector alone: the data region, where
      it writes, starts after it. */
  lemma WriteFromKeepsBoot(img: seq<byte>, b: BootSector, fat: Fat, chain: seq<u16>, src: seq<byte>, buf: seq<byte>)
    requires CreateArgs(b, src, buf) && |chain| == Need(b, |src|) && Ascending(fat, chain)
    requires SavesReload(b) && BOOT_SECTOR_SIZE <= |img|
    ensures LoadBoot(WriteFrom(img, b, chain, src, buf, 0)) == LoadBoot(img)
  {
    RootAfterCopies(b);
    MulMonotone(0, b.numFats, FatSize(b));
    RootBeforeData(b);
    ClusterLayout(b, chain[0] as nat, chain[0] as nat + 1);
    WriteFromKeeps(img, b, fat, chain, src, buf, 0, 0, BOOT_SECTOR_SIZE);
  }

  /** Deleting, under its own name, a file whose slot and chain were filled
      the way fat16_create fills them frees the chain and the slot. */
  lemma DeleteUndoesAllocation(b: BootSector, tail: seq<byte>, d: Disk, created: Disk, dest: seq<byte>, need: nat, slot: nat, e: DirEntry)
    requires b.bytesPerSector > 0 && FindEntry(d.root, dest).None? && FreeSlot(d.root) == Some(slot)
    requires Occupies(To83(dest)) && |d.fat| <= FAT16_BAD as nat
    requires 1 <= need <= |FreeClusters(d.fat)| && need <= StepCap(b) + 1
    requires created.fat == Allocated(d.fat, need) && created.root == d.root[slot := e]
    requires e.firstClusterLow == FreeClusters(d.fat)[0] && NameOf(e) == To83(dest) && EntryRegular(e)
    ensures && Delete(b, tail, created, dest).0 == Success
      && Delete(b, tail, created, dest).1.fat == d.fat
      && Delete(b, tail, created, dest).1.root == d.root[slot := MarkedDeleted(e)]
      && FindEntry(Delete(b, tail, created, dest).1.root, dest).None?
  {
    PlacedIsFound(d.root, slot, To83(dest), e);
    ReleaseUndoesAllocation(d.fat, need, StepCap(b));
  }

  /** After fat16_rename the file is found under the new name with the same
      contents and attributes, but for the new modification stamp; with
      unique names before, names stay unique and the old name is found
      nowhere. */
  lemma RenameThenShow(b: BootSector, tail: seq<byte>, d: Disk, from: seq<byte>, to: seq<byte>, date: u16, time: u16)
    requires Fits(b, tail, d) && Occupies(To83(to))
    requires Rename(b, tail, d, from, to, date, time).0 == Success
    ensures var after := Rename(b, tail, d, from, to, date, time).1;
      && ShowFile(b, after, to) == ShowFile(b, d, from)
      && ShowAttrs(d, from).Ok?
      && ShowAttrs(after, to) == Ok(ShowAttrs(d, from).value.(modifiedOn := DecodeDate(date), modifiedAt := DecodeTime(time)))
      && (UniqueNames(d.root) ==> UniqueNames(after.root) && FindEntry(after.root, from).None?)
  {
    var i := FindEntry(d.root, from).value;
    var e := d.root[i];
    var root := d.root[i := Renamed(e, To83(to), date, time)];
    var m := Mounted(b, d.fat, tail, root);
    var after := Rename(b, tail, d, from, to, date, time).1;
    assert after == d.(root := root, image := SaveRoot(d.image, m));
    RenameKeepsNamesUnique(d.root, i, To83(from), To83(to), date, time);
    SaveRootKeepsData(d.image, m);
    if e.fileSize > 0 {
      ReadFromFrame(after.image, d.image, b, d.fat, e.firstClusterLow, [], e.fileSize as nat, 0);
    }
  }

  /** What fat16_open reads back from the disk's image is the disk's FAT
      and root directory. */
  predicate Persisted(b: BootSector, tail: seq<byte>, d: Disk)
  {
    Open(d.image) == Ok(MountedOf(b, tail, d))
  }

  /** A layout whose saves land where fat16_open loads from: at least one
      FAT copy, and the FAT clear of the boot sector. */
  predicate SavesReload(b: BootSector)
  {
    b.numFats >= 1 && BOOT_SECTOR_SIZE <= FatStart(b)
  }

  /** fat16_delete leaves an image that reopens to the new state. */
  lemma DeletePersists(b: BootSector, tail: seq<byte>, d: Disk, name: seq<byte>)
    requires Persisted(b, tail, d) && SavesReload(b)
    ensures b.bytesPerSector > 0 && Persisted(b, tail, Delete(b, tail, d, name).1)
  {
    OpenIsShaped(d.image);
    var after := Delete(b, tail, d, name).1;
    if after != d {
      OpenAfterFlush(d.image, MountedOf(b, tail, after));
    }
  }

  /** fat16_rename leaves an image that reopens to the new state. */
  lemma RenamePersists(b: BootSector, tail: seq<byte>, d: Disk, from: seq<byte>, to: seq<byte>, date: u16, time: u16)
    requires Persisted(b, tail, d) && SavesReload(b)
    ensures Persisted(b, tail, Rename(b, tail, d, from, to, date, time).1)
  {
    var after := Rename(b, tail, d, from, to, date, time).1;
    if after != d {
      OpenAfterSaveRoot(d.image, MountedOf(b, tail, after), d.root);
    }
  }

  /** fat16_create leaves an image that reopens to the new state: the
      clusters it writes lie past the boot sector, and the flush that
      follows saves the FAT and the root directory. */
  lemma CreatePersists(b: BootSector, tail: seq<byte>, d: Disk, src: seq<byte>, dest: seq<byte>, date: u16, time: u16, bufInit: seq<byte>)
    requires CreateArgs(b, src, bufInit) && Persisted(b, tail, d) && SavesReload(b)
    ensures Persisted(b, tail, Create(b, tail, d, src, dest, date, time, bufInit).1)
  {
    OpenIsShaped(d.image);
    if Create(b, tail, d, src, dest, date, time, bufInit).0 == Success {
      var after := Create(b, tail, d, src, dest, date, time, bufInit).1;
      var slot, chain := CreateResult(b, tail, d, src, dest, date, time, bufInit);
      WriteFromKeepsBoot(d.image, b, d.fat, chain, src, bufInit);
      OpenAfterFlush(WriteFrom(d.image, b, chain, src, bufInit, 0), MountedOf(b, tail, after));
    }
  }
}
