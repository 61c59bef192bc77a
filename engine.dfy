/** The engine's context (Fat16Ctx) as an object: the boot sector, the FAT
    and the root directory held in memory as arrays the operations update in
    place, and the image file as a byte sequence. Each operation is proved
    against the function that says what it does to the volume. */
module Engine {
  import opened Common
  import opened OnDisk
  import opened Geometry
  import opened NameCodec
  import opened VolumeStore
  import opened FatTable
  import opened ChainReader
  import opened RootDirectory
  import opened FileOperations

  class Volume {
    const bpb: BootSector
    /** The odd last byte of the FAT buffer, when fat_size_bytes is odd. */
    const fatTail: seq<byte>
    const fat: array<u16>
    const root: array<DirEntry>
    var image: seq<byte>

    /** What the context holds in memory, as fat16_open loads it. */
    ghost function Loaded(): Mounted
      reads this, fat, root
    {
      Mounted(bpb, fat[..], fatTail, root[..])
    }

    /** The FAT and the root directory have the sizes the boot sector gives
        them, and every FAT index fits a uint16_t cluster number. Array
        lengths never change, so no operation can break this. */
    ghost predicate Valid()
    {
      && fat.Length <= 0x1_0000
      && bpb.bytesPerSector > 0
      && |fatTail| < 2
      && 2 * fat.Length + |fatTail| == FatSize(bpb)
      && root.Length == bpb.rootEntryCount
    }

    /** The state the operations change. */
    ghost function Now(): Disk
      reads this, fat, root
      requires Valid()
    {
      Disk(fat[..], root[..], image)
    }

    /** The context fat16_open fills from what it loaded. */
    constructor (m: Mounted, img: seq<byte>)
      requires Shaped(m) && |m.fat| <= 0x1_0000
      ensures Valid() && Loaded() == m && image == img
      ensures fresh(fat) && fresh(root)
    {
      bpb := m.bpb;
      fatTail := m.fatTail;
      fat := new u16[|m.fat|](i requires 0 <= i < |m.fat| => m.fat[i]);
      root := new DirEntry[|m.root|](i requires 0 <= i < |m.root| => m.root[i]);
      image := img;
      new;
      assert fat[..] == m.fat && root[..] == m.root;
    }

    /** find_free_cluster_from: the least free cluster at max(start, 2) or
        above, or 0. */
    method FindFreeClusterFrom(start: u16) returns (c: u16)
      requires Valid()
      ensures c as nat == FirstFree(fat[..], start as nat)
    {
      var i: nat := if start < 2 then 2 else start as nat;
      while i < fat.Length
        invariant 2 <= i
        invariant FirstFree(fat[..], i) == FirstFree(fat[..], start as nat)
      {
        if fat[i] == FAT16_FREE {
          return i as u16;
        }
        i := i + 1;
      }
      return 0;
    }

    /** allocate_chain with its last write aimed at the chain's last
        cluster: claim the first n free clusters, or put FREE back on every
        claimed cluster and return 0 when there are too few; otherwise link
        the clusters in order and return the first. */
    method AllocateChain(n: nat) returns (first: u16, chain: seq<u16>)
      requires Valid() && n >= 1
      modifies fat
      ensures var fat0 := old(fat[..]);
        if |FreeClusters(fat0)| < n then first == 0 && fat[..] == fat0
        else first == FreeClusters(fat0)[0] && chain == FreeClusters(fat0)[..n] && fat[..] == Allocated(fat0, n)
      ensures first == 0 <==> |FreeClusters(old(fat[..]))| < n
    {
      ghost var fat0: Fat := fat[..];
      var out := new u16[n];
      var claimed := Reserve(out);
      if claimed < n {
        Rollback(out, claimed, fat0);
        ReservationRollsBack(fat0, claimed);
        assert fat[..] == fat0 && |FreeClusters(fat0)| == claimed;
        return 0, [];
      }
      assert out[..] == out[..n] == FreeClusters(fat0)[..n];
      AllocatedLinksFree(fat0, n);
      Link(out, fat0);
      chain := out[..];
      first := out[0];
    }

    /** allocate_chain's reservation loop: claim free clusters one by one
        with EOF, each searched for after the previous one (the uint16_t
        cursor wraps to 0 past 0xFFFF), until out is full or the search
        comes back empty. The claimed clusters are the first free ones. */
    method Reserve(out: array<u16>) returns (claimed: nat)
      requires Valid() && out != fat
      modifies fat, out
      ensures claimed <= out.Length && claimed <= |FreeClusters(old(fat[..]))|
      ensures claimed < out.Length ==> claimed == |FreeClusters(old(fat[..]))|
      ensures out[..claimed] == FreeClusters(old(fat[..]))[..claimed]
      ensures fat[..] == SetAll(old(fat[..]), out[..claimed], FAT16_EOF)
    {
      ghost var fat0: Fat := fat[..];
      var cursor: u16 := 2;
      var i := 0;
      var exhausted := false;
      while i < out.Length && !exhausted
        invariant i <= out.Length && Reserving(fat0, fat[..], out[..i], cursor as nat)
        invariant exhausted ==> i == |FreeClusters(fat0)|
        decreases out.Length - i, if exhausted then 0 else 1
      {
        var c := FindFreeClusterFrom(cursor);
        ReserveStep(fat0, fat[..], out[..i], cursor as nat);
        if c == 0 {
          exhausted := true;
        } else {
          Claim(out, i, c);
          cursor := if c == 0xFFFF then 0 else c + 1;
          i := i + 1;
        }
      }
      claimed := i;
    }

    /** One claim of the reservation loop: EOF into cluster c, and c into
        slot i of out. */
    method Claim(out: array<u16>, i: nat, c: u16)
      requires out != fat && i < out.Length && (c as nat) < fat.Length
      modifies fat, out
      ensures fat[..] == old(fat[..])[c := FAT16_EOF]
      ensures out[..i + 1] == old(out[..i]) + [c]
    {
      fat[c] := FAT16_EOF;
      out[i] := c;
    }

    /** allocate_chain's rollback loop: FREE on the first `claimed`
        clusters of out. */
    method Rollback(out: array<u16>, claimed: nat, ghost fat0: Fat)
      requires Valid() && out != fat && claimed <= out.Length && |fat0| == fat.Length
      requires claimed <= |FreeClusters(fat0)| && out[..claimed] == FreeClusters(fat0)[..claimed]
      modifies fat
      ensures fat[..] == SetAll(old(fat[..]), out[..claimed], FAT16_FREE)
    {
      ghost var fat1: Fat := fat[..];
      forall k | 0 <= k < claimed ensures out[k] as nat < fat.Length {
        assert out[k] == FreeClusters(fat0)[k];
      }
      var k := 0;
      while k < claimed
        invariant k <= claimed
        invariant fat[..] == SetAll(fat1, out[..k], FAT16_FREE)
      {
        fat[out[k]] := FAT16_FREE;
        assert out[..k + 1][..k] == out[..k];
        k := k + 1;
      }
    }

    /** allocate_chain's linking loop, then the EOF mark on the chain's
        last cluster: the claimed clusters, all EOF, become a chain. */
    method Link(out: array<u16>, ghost fat0: Fat)
      requires Valid() && out != fat && out.Length >= 1 && |fat0| == fat.Length
      requires Ascending(fat0, out[..]) && fat[..] == SetAll(fat0, out[..], FAT16_EOF)
      modifies fat
      ensures fat[..] == Linked(fat0, out[..])
    {
      var n := out.Length;
      LinkingStarts(fat0, out[..]);
      var k := 0;
      while k < n - 1
        invariant k <= n - 1 && Linking(fat0, out[..], fat[..], k)
      {
        LinkStep(fat0, out[..], fat[..], k);
        fat[out[k]] := out[k + 1];
        k := k + 1;
      }
      LinkStep(fat0, out[..], fat[..], k);
      fat[out[n - 1]] := FAT16_EOF;
    }

    /** read_chain: follow the entry's chain from its first cluster,
        gathering min(cluster size, bytes left) from each cluster, until
        the file's size is gathered or an end-of-chain cluster is read;
        fail on a link outside [2, fat entries), on a bad cluster, on a
        short read or after more links than clusters plus 8. */
    method ReadChain(e: DirEntry) returns (r: Result<seq<byte>>)
      requires Valid()
      ensures r == ChainRead(image, bpb, fat[..], e.firstClusterLow, e.fileSize as nat)
    {
      var size := e.fileSize as nat;
      if size == 0 {
        return Ok([]);
      }
      var got: seq<byte> := [];
      var steps: nat := 0;
      var c: u16 := e.firstClusterLow;
      while |got| < size
        invariant |got| <= size && steps <= StepCap(bpb)
        invariant ReadFrom(image, bpb, fat[..], c, got, size, steps) == ChainRead(image, bpb, fat[..], e.firstClusterLow, size)
        decreases StepCap(bpb) - steps
      {
        if c < 2 || c as nat >= fat.Length {
          return Err(ClusterOutOfRange);
        }
        if c == FAT16_BAD {
          return Err(BadCluster);
        }
        var toRead := Min(size - |got|, Derive(bpb).clusterSize);
        var bytes := ReadAt(image, ClusterOffset(bpb, c as nat), toRead);
        if bytes.None? {
          return Err(ReadFailure);
        }
        got := got + bytes.value;
        if c >= FAT16_EOF_MIN {
          break;
        }
        var next: u16 := fat[c];
        steps := steps + 1;
        if steps > StepCap(bpb) {
          return Err(ChainTooLong);
        }
        c := next;
      }
      return Ok(got);
    }

    /** find_by_name: the first regular slot carrying the 8.3 form of the
        name. */
    method FindByName(name: seq<byte>) returns (r: Option<nat>)
      requires Valid()
      ensures r == FindEntry(root[..], name)
    {
      var key := ToEightThree(name);
      var i := 0;
      while i < root.Length
        invariant i <= root.Length
        invariant FindFrom(root[..], key, i) == FindFrom(root[..], key, 0)
      {
        var e := root[i];
        if EntryRegular(e) && e.filename == key.name && e.extension == key.ext {
          return Some(i);
        }
        i := i + 1;
      }
      return None;
    }

    /** find_free_dir: the first free slot. */
    method FindFreeDir() returns (r: Option<nat>)
      requires Valid()
      ensures r == FreeSlot(root[..])
    {
      var i := 0;
      while i < root.Length
        invariant i <= root.Length
        invariant FreeSlotFrom(root[..], i) == FreeSlotFrom(root[..], 0)
      {
        if EntryFree(root[i]) {
          return Some(i);
        }
        i := i + 1;
      }
      return None;
    }

    /** fat16_list_dir: a line per regular slot, in slot order, and their
        number. */
    method ListDir() returns (lines: seq<Listed>, count: nat)
      requires Valid()
      ensures lines == Listing(root[..]) && count == RegularCount(root[..])
      ensures count == |lines|
    {
      lines, count := [], 0;
      var i := 0;
      while i < root.Length
        invariant i <= root.Length
        invariant lines == Listing(root[..i]) && count == RegularCount(root[..i])
      {
        var e := root[i];
        assert root[..i + 1][..i] == root[..i];
        if EntryRegular(e) {
          var shown := MakeReadable(e);
          lines := lines + [Listed(shown, e.fileSize)];
          count := count + 1;
        }
        i := i + 1;
      }
      assert root[..root.Length] == root[..];
      ListingCounts(root[..]);
    }

    /** fat16_show_file: the named file's bytes. */
    method ShowFile(name: seq<byte>) returns (r: Result<seq<byte>>)
      requires Valid()
      ensures r == FileOperations.ShowFile(bpb, Now(), name)
    {
      var found := FindByName(name);
      if found.None? {
        return Err(NotFound);
      }
      r := ReadChain(root[found.value]);
    }

    /** fat16_show_attrs: the named file's size, stamps and flags. */
    method ShowAttrs(name: seq<byte>) returns (r: Result<Attributes>)
      requires Valid()
      ensures r == FileOperations.ShowAttrs(Now(), name)
    {
      var found := FindByName(name);
      if found.None? {
        return Err(NotFound);
      }
      r := Ok(AttributesOf(root[found.value]));
    }

    /** save_fat: the in-memory FAT buffer written to every FAT copy, one
        after the other from the end of the reserved sectors. */
    method SaveFat()
      requires Valid()
      modifies this
      ensures image == VolumeStore.SaveFat(old(image), Loaded())
    {
      var bytes := EncodeFat(fat[..]) + fatTail;
      assert |bytes| == FatSize(bpb);
      RootFollowsLastFat(bpb);
      var i := 0;
      while i < bpb.numFats
        invariant i <= bpb.numFats
        invariant SaveCopies(image, FatOffset(bpb, i), bytes, bpb.numFats - i) == SaveCopies(old(image), FatStart(bpb), bytes, bpb.numFats)
      {
        image := Overwrite(image, FatOffset(bpb, i), bytes);
        i := i + 1;
      }
    }

    /** save_root: every root-directory slot, where the last FAT copy
        ends. */
    method SaveRoot()
      requires Valid()
      modifies this
      ensures image == VolumeStore.SaveRoot(old(image), Loaded())
    {
      image := Overwrite(image, RootOffset(bpb), EncodeRoot(root[..]));
    }

    /** fat16_flush: save_fat, then save_root. */
    method Flush()
      requires Valid()
      modifies this
      ensures image == VolumeStore.Flush(old(image), Loaded())
    {
      SaveFat();
      SaveRoot();
    }

    /** fat16_rename: refuse a missing source or a taken target; otherwise
        write the target's 8.3 name and the modification stamp into the
        source's slot and save the root directory. */
    method Rename(from: seq<byte>, to: seq<byte>, date: u16, time: u16) returns (s: Status)
      requires Valid()
      modifies this, root
      ensures (s, Now()) == FileOperations.Rename(bpb, fatTail, old(Now()), from, to, date, time)
    {
      var found := FindByName(from);
      if found.None? {
        return Failure(NotFound);
      }
      var taken := FindByName(to);
      if taken.Some? {
        return Failure(AlreadyExists);
      }
      var key := ToEightThree(to);
      var i := found.value;
      root[i] := root[i].(filename := key.name, extension := key.ext, lastModDate := date, lastModTime := time);
      SaveRoot();
      return Success;
    }

    /** fat16_delete: refuse a missing name; otherwise free the clusters of
        its chain while they lie in [2, fat entries) below 0xFFF8, stopping
        after more steps than clusters plus 8, mark its slot deleted and save
        the FAT and the root directory. */
    method Delete(name: seq<byte>) returns (s: Status)
      requires Valid()
      modifies this, fat, root
      ensures (s, Now()) == FileOperations.Delete(bpb, fatTail, old(Now()), name)
    {
      ghost var d0 := Now();
      var found := FindByName(name);
      if found.None? {
        return Failure(NotFound);
      }
      var i := found.value;
      ReleaseChain(root[i].firstClusterLow);
      assert root[..] == d0.root && image == d0.image;
      root[i] := MarkedDeleted(root[i]);
      SaveFat();
      SaveRoot();
      assert root[..] == d0.root[i := MarkedDeleted(d0.root[i])];
      DeleteFound(bpb, fatTail, d0, name, i);
      return Success;
    }

    /** fat16_delete's release loop: from cluster c0, free each cluster of
        the table below 0xFFF8 and follow its old link, stopping after the
        step that passes the step cap. */
    method ReleaseChain(c0: u16)
      requires Valid()
      modifies fat
      ensures fat[..] == Release(old(fat[..]), c0, 0, StepCap(bpb))
    {
      ghost var fat0: Fat := fat[..];
      var c: u16 := c0;
      var steps: nat := 0;
      var cap := StepCap(bpb);
      while 2 <= c && (c as nat) < fat.Length && c < FAT16_EOF_MIN
        invariant steps <= cap
        invariant Release(fat[..], c, steps, cap) == Release(fat0, c0, 0, cap)
        decreases cap - steps
      {
        var next: u16 := fat[c];
        ghost var before := fat[..];
        fat[c] := FAT16_FREE;
        assert fat[..] == before[c := FAT16_FREE];
        c := next;
        steps := steps + 1;
        if steps > cap {
          break;
        }
      }
    }

    /** fat16_create's write loop: for each cluster of the chain, read the
        cluster's share of the source into the buffer (a whole cluster, the
        rest of the source for the last one) and write the whole buffer at
        the cluster's offset. `pos` is the source's file position. The
        source is never read short, so the zero-fill after a short read has
        no counterpart. */
    method WriteChain(chain: seq<u16>, src: seq<byte>, bufInit: seq<byte>)
      requires Valid() && CreateArgs(bpb, src, bufInit)
      requires |chain| == Need(bpb, |src|) && forall k :: 0 <= k < |chain| ==> chain[k] >= 2
      modifies this
      ensures image == WriteFrom(old(image), bpb, chain, src, bufInit, 0)
    {
      ghost var trace := Trace(image, bpb, chain, src, bufInit);
      var img := image;
      var cs := Derive(bpb).clusterSize;
      var need := |chain|;
      var buf := bufInit;
      var pos := 0;
      var i := 0;
      while i < need
        invariant 0 <= i <= need && |trace| == need + 1
        invariant (img, buf) == trace[i] && |buf| == cs
        invariant i < need ==> pos == ShareStart(bpb, i)
      {
        var toRead := cs;
        if i == need - 1 {
          var rem := |src| - pos;
          if rem < 0 {
            rem := 0;
          }
          if rem < toRead {
            toRead := rem;
          }
        }
        LoopShare(bpb, src, buf, i, pos, toRead);
        IterateStep((old(image), bufInit), PassStep(bpb, chain, src), 0, need, i);
        buf := src[pos..pos + toRead] + buf[toRead..];
        pos := pos + toRead;
        img := Overwrite(img, ClusterOffset(bpb, chain[i] as nat), buf);
        i := i + 1;
      }
      IterateEndsInRun((old(image), bufInit), PassStep(bpb, chain, src), 0, need);
      image := img;
    }

    /** fat16_create: refuse a taken name or a full root directory; reserve
        the clusters the source needs (at least one), refusing when too few
        are free; write the source into them; fill the free slot with the
        8.3 name, the archive flag, the first cluster, the size and the
        stamps; save the FAT and the root directory. */
    method Create(src: seq<byte>, dest: seq<byte>, date: u16, time: u16, bufInit: seq<byte>) returns (s: Status)
      requires Valid() && CreateArgs(bpb, src, bufInit)
      modifies this, fat, root
      ensures (s, Now()) == FileOperations.Create(bpb, fatTail, old(Now()), src, dest, date, time, bufInit)
    {
      ghost var d0 := Now();
      var found := FindByName(dest);
      if found.Some? {
        return Failure(AlreadyExists);
      }
      var free := FindFreeDir();
      if free.None? {
        return Failure(DirectoryFull);
      }
      var slot := free.value;
      var cs := Derive(bpb).clusterSize;
      var need := (|src| + cs - 1) / cs;
      if need <= 0 {
        need := 1;
      }
      assert need == Need(bpb, |src|);
      var first, chain := AllocateChain(need);
      if first == 0 {
        return Failure(NoFreeSpace);
      }
      WriteChain(chain, src, bufInit);
      assert root[..] == d0.root;
      var key := ToEightThree(dest);
      var entry := NewEntry(key, first, StoredSize(|src|), date, time);
      assert entry == NewEntry(To83(dest), chain[0], StoredSize(|src|), date, time);
      root[slot] := entry;
      assert root[..] == d0.root[slot := entry];
      SaveFat();
      SaveRoot();
      CreateSucceeds(bpb, fatTail, d0, src, dest, date, time, bufInit, slot);
      return Success;
    }
  }

  /** fat16_open: load the boot sector, then the FAT, then the root
      directory, reporting the first that cannot be read; on success the
      context holds what was loaded. The FAT must have no more entries than
      a uint16_t cluster number can index. */
  method OpenVolume(img: seq<byte>) returns (r: Result<Volume>)
    requires Open(img).Ok? ==> |Open(img).value.fat| <= 0x1_0000
    ensures r.Err? <==> Open(img).Err?
    ensures r.Err? ==> r.error == Open(img).error
    ensures r.Ok? ==> fresh(r.value) && r.value.Valid() && r.value.Loaded() == Open(img).value && r.value.image == img
  {
    var boot := LoadBoot(img);
    if boot.Err? {
      return Err(boot.error);
    }
    var fatRead := LoadFat(img, boot.value);
    if fatRead.Err? {
      return Err(fatRead.error);
    }
    var rootRead := LoadRoot(img, boot.value);
    if rootRead.Err? {
      return Err(rootRead.error);
    }
    OpenIsShaped(img);
    var v := new Volume(Mounted(boot.value, fatRead.value.0, fatRead.value.1, rootRead.value), img);
    return Ok(v);
  }
}
