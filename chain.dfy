/** read_chain: gathering a file's bytes by following its cluster chain
    through the FAT and reading each cluster from the image. The engine's
    test for a FREE link comes after its range test, which already rejects
    cluster 0, so it never fires and has no counterpart here. */
module ChainReader {
  import opened Common
  import opened OnDisk
  import opened Geometry
  import opened FatTable
  import opened VolumeStore

  /** How many links a walk may follow: the volume's data clusters plus 8. */
  function StepCap(b: BootSector): nat
    requires b.bytesPerSector > 0
  {
    Derive(b).clusterCount + 8
  }

  /** The bytes a cluster contributes when `got` of `size` bytes are
      gathered: a whole cluster, or what is left when that is less. */
  function ToRead(b: BootSector, got: nat, size: nat): nat
    requires b.bytesPerSector > 0 && got <= size
  {
    Min(size - got, Derive(b).clusterSize)
  }

  /** The loop of read_chain at cluster c, with `got` gathered after
      `steps` links: check the cluster, read its share, stop at an
      end-of-chain cluster, else follow the link unless the cap is passed. */
  function ReadFrom(img: seq<byte>, b: BootSector, fat: Fat, c: u16, got: seq<byte>, size: nat, steps: nat): (r: Result<seq<byte>>)
    requires b.bytesPerSector > 0 && |got| <= size && steps <= StepCap(b)
    ensures r.Ok? ==> |got| <= |r.value| <= size && r.value[..|got|] == got
    ensures r.Ok? && |fat| <= FAT16_EOF_MIN as nat ==> |r.value| == size
    decreases StepCap(b) - steps
  {
    if |got| >= size then Ok(got)
    else if c < 2 || c as nat >= |fat| then Err(ClusterOutOfRange)
    else if c == FAT16_BAD then Err(BadCluster)
    else
      match ReadAt(img, ClusterOffset(b, c), ToRead(b, |got|, size))
      case None => Err(ReadFailure)
      case Some(bytes) =>
        var more := got + bytes;
        if EndsChain(c) then Ok(more)
        else if steps + 1 > StepCap(b) then Err(ChainTooLong)
        else
          var r := ReadFrom(img, b, fat, fat[c], more, size, steps + 1);
          assert r.Ok? ==> r.value[..|got|] == more[..|got|];
          r
  }

  /** read_chain for an entry of `size` bytes starting at cluster `first`;
      an empty file has no data and reads no cluster. */
  function ChainRead(img: seq<byte>, b: BootSector, fat: Fat, first: u16, size: nat): (r: Result<seq<byte>>)
    requires b.bytesPerSector > 0
    ensures size == 0 ==> r == Ok([])
    ensures r.Ok? ==> |r.value| <= size
    ensures r.Ok? && |fat| <= FAT16_EOF_MIN as nat ==> |r.value| == size
  {
    if size == 0 then Ok([]) else ReadFrom(img, b, fat, first, [], size, 0)
  }

  /** The byte offset within the file where the k-th cluster's share
      starts. */
  function ShareStart(b: BootSector, k: nat): nat
    requires b.bytesPerSector > 0
  {
    k * Derive(b).clusterSize
  }

  lemma ShareStartNext(b: BootSector, k: nat)
    requires b.bytesPerSector > 0
    ensures ShareStart(b, k + 1) == ShareStart(b, k) + Derive(b).clusterSize
  {
  }

  /** Cluster c of the image holds the k-th share of src: the bytes of src
      from the k-th cluster size on, up to one cluster's worth. */
  predicate HoldsShare(img: seq<byte>, b: BootSector, c: u16, src: seq<byte>, k: nat)
    requires b.bytesPerSector > 0 && c >= 2
  {
    ShareStart(b, k) <= |src| ==>
      var start := ShareStart(b, k);
      var n := ToRead(b, start, |src|);
      ReadAt(img, ClusterOffset(b, c), n) == Some(src[start..start + n])
  }

  /** A chain as long as src needs: every cluster but the last is filled,
      and the last holds the rest. */
  predicate Spans(b: BootSector, chain: seq<u16>, src: seq<byte>)
    requires b.bytesPerSector > 0
  {
    |chain| >= 1 && ShareStart(b, |chain| - 1) < |src| <= ShareStart(b, |chain|)
  }

  /** Following a linked chain whose clusters hold the shares of src, from
      its i-th cluster with the first i shares gathered, gathers src. */
  lemma {:induction false} ReadsShares(img: seq<byte>, b: BootSector, fat: Fat, chain: seq<u16>, src: seq<byte>, i: nat)
    requires b.bytesPerSector > 0 && Derive(b).clusterSize > 0
    requires Ascending(fat, chain) && |fat| <= FAT16_BAD as nat
    requires forall k :: 0 <= k < |chain| - 1 ==> fat[chain[k]] == chain[k + 1]
    requires forall k :: 0 <= k < |chain| ==> HoldsShare(img, b, chain[k], src, k)
    requires Spans(b, chain, src) && |chain| <= StepCap(b)
    requires i < |chain|
    ensures ShareStart(b, i) <= |src|
    ensures ReadFrom(img, b, fat, chain[i], src[..ShareStart(b, i)], |src|, i) == Ok(src)
    decreases |chain| - i
  {
    var cs := Derive(b).clusterSize;
    var start := ShareStart(b, i);
    ShareStartNext(b, i);
    assert start < |src| by {
      if i < |chain| - 1 {
        MulMonotone(i + 1, |chain| - 1, cs);
      }
    }
    var c := chain[i];
    var n := ToRead(b, start, |src|);
    assert HoldsShare(img, b, c, src, i);
    var more := src[..start] + src[start..start + n];
    assert more == src[..start + n];
    ReadStep(img, b, fat, c, src[..start], |src|, i, src[start..start + n]);
    if i + 1 < |chain| {
      assert start + cs <= ShareStart(b, |chain| - 1) by {
        MulMonotone(i + 1, |chain| - 1, cs);
      }
      assert n == cs;
      ReadsShares(img, b, fat, chain, src, i + 1);
    } else {
      assert more == src;
    }
  }

  /** One link of the walk: a cluster in range, not bad and not ending the
      chain, whose share reads back, hands over to its successor. */
  lemma ReadStep(img: seq<byte>, b: BootSector, fat: Fat, c: u16, got: seq<byte>, size: nat, steps: nat, bytes: seq<byte>)
    requires b.bytesPerSector > 0 && |got| < size && steps + 1 <= StepCap(b)
    requires 2 <= c && (c as nat) < |fat| && c != FAT16_BAD && !EndsChain(c)
    requires ReadAt(img, ClusterOffset(b, c), ToRead(b, |got|, size)) == Some(bytes)
    ensures |got + bytes| <= size
    ensures ReadFrom(img, b, fat, c, got, size, steps) == ReadFrom(img, b, fat, fat[c], got + bytes, size, steps + 1)
  {
  }

  /** A file whose clusters were linked in order and hold its bytes reads
      back as those bytes, when the FAT has no entry at 0xFFF7 or above and
      the chain is no longer than the step cap. */
  lemma ReadBack(img: seq<byte>, b: BootSector, fat: Fat, chain: seq<u16>, src: seq<byte>)
    requires b.bytesPerSector > 0 && Derive(b).clusterSize > 0
    requires Ascending(fat, chain) && |fat| <= FAT16_BAD as nat
    requires forall k :: 0 <= k < |chain| - 1 ==> fat[chain[k]] == chain[k + 1]
    requires forall k :: 0 <= k < |chain| ==> HoldsShare(img, b, chain[k], src, k)
    requires Spans(b, chain, src) && |chain| <= StepCap(b)
    ensures ChainRead(img, b, fat, chain[0], |src|) == Ok(src)
  {
    ReadsShares(img, b, fat, chain, src, 0);
    assert src[..ShareStart(b, 0)] == [];
  }

  /** Gathering a chain reads only the data region: images with the same
      bytes from the data region on gather the same. */
  lemma {:induction false} ReadFromFrame(a: seq<byte>, img: seq<byte>, b: BootSector, fat: Fat, c: u16, got: seq<byte>, size: nat, steps: nat)
    requires b.bytesPerSector > 0 && |got| <= size && steps <= StepCap(b)
    requires SameFrom(a, img, DataOffset(b))
    ensures ReadFrom(a, b, fat, c, got, size, steps) == ReadFrom(img, b, fat, c, got, size, steps)
    decreases StepCap(b) - steps
  {
    if |got| < size && 2 <= c && (c as nat) < |fat| && c != FAT16_BAD {
      ClusterLayout(b, c as nat, c as nat + 1);
      ReadAtFrame(a, img, DataOffset(b), ClusterOffset(b, c as nat), ToRead(b, |got|, size));
      match ReadAt(a, ClusterOffset(b, c as nat), ToRead(b, |got|, size))
      case None =>
      case Some(bytes) =>
        if !EndsChain(c) && steps + 1 <= StepCap(b) {
          ReadFromFrame(a, img, b, fat, fat[c], got + bytes, size, steps + 1);
        }
    }
  }
}
