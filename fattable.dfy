/** The file allocation table as a sequence of 16-bit entries: the free
    search of find_free_cluster_from, the chain that allocate_chain builds
    (as the engine links it, and as it evidently means to), and the release
    walk of fat16_delete. Cluster numbers are uint16_t in the engine, so the
    table is taken to have at most 0x10000 entries. */
module FatTable {
  import opened Common
  import opened OnDisk

  /** The FAT of a volume whose entries uint16_t cluster numbers can all
      address. */
  type Fat = f: seq<u16> | |f| <= 0x1_0000

  /** The free clusters at index `from` and above, in ascending order. */
  function FreeFrom(fat: Fat, from: nat): (r: seq<u16>)
    ensures |r| + from <= |fat| || r == []
    ensures forall k :: 0 <= k < |r| ==> from <= r[k] < |fat| && fat[r[k]] == FAT16_FREE
    ensures forall k, l :: 0 <= k < l < |r| ==> r[k] < r[l]
    ensures forall j :: from <= j < |fat| && fat[j] == FAT16_FREE ==> j in r
    decreases |fat| - from
  {
    if from >= |fat| then []
    else if fat[from] == FAT16_FREE then [from as u16] + FreeFrom(fat, from + 1)
    else FreeFrom(fat, from + 1)
  }

  /** The clusters find_free_cluster_from may hand out: clusters 0 and 1
      are reserved. */
  function FreeClusters(fat: Fat): seq<u16>
  {
    FreeFrom(fat, 2)
  }

  /** find_free_cluster_from: the least free cluster at max(start, 2) or
      above, or 0 when there is none. */
  function FirstFree(fat: Fat, start: nat): (c: nat)
    ensures c == 0 || (Max(start, 2) <= c < |fat| && fat[c] == FAT16_FREE)
    ensures c != 0 ==> forall j :: Max(start, 2) <= j < c ==> fat[j] != FAT16_FREE
    ensures c == 0 ==> forall j :: Max(start, 2) <= j < |fat| ==> fat[j] != FAT16_FREE
    decreases |fat| + 2 - start
  {
    if start < 2 then FirstFree(fat, 2)
    else if start >= |fat| then 0
    else if fat[start] == FAT16_FREE then start
    else FirstFree(fat, start + 1)
  }

  /** The free search returns the head of the free list from the same
      place, or 0 when that list is empty. */
  lemma FirstFreeIsHead(fat: Fat, from: nat)
    requires from >= 2
    ensures FirstFree(fat, from) == if FreeFrom(fat, from) == [] then 0 else FreeFrom(fat, from)[0] as nat
  {
    var c := FirstFree(fat, from);
    var r := FreeFrom(fat, from);
    if c != 0 {
      assert c in r;
    }
    if r != [] {
      assert from <= r[0] < |fat| && fat[r[0]] == FAT16_FREE;
    }
  }

  /** No cluster in [2, hi) is free. */
  predicate NoFreeBelow(fat: Fat, hi: nat)
  {
    forall j :: 2 <= j < hi && j < |fat| ==> fat[j] != FAT16_FREE
  }

  /** Searching from `start` finds the head of the whole free list when no
      cluster in [2, start) is free. */
  lemma FirstFreeAfterGap(fat: Fat, start: nat)
    requires NoFreeBelow(fat, start)
    ensures FirstFree(fat, start) == if FreeClusters(fat) == [] then 0 else FreeClusters(fat)[0] as nat
  {
    FirstFreeIsHead(fat, 2);
    var r := FreeClusters(fat);
    if r != [] {
      assert Max(start, 2) <= r[0] by {
        assert fat[r[0]] == FAT16_FREE;
      }
    }
  }

  /** Claiming what the search from `start` found, when nothing below
      `start` was free, leaves nothing free up to the claimed cluster. */
  lemma ClaimWidensGap(fat: Fat, start: nat, c: nat)
    requires NoFreeBelow(fat, start) && c == FirstFree(fat, start) && c != 0
    ensures NoFreeBelow(fat[c := FAT16_EOF], c + 1)
  {
  }

  /** The free list from `from` is the free list from `from + 1`, with
      `from` in front when it is free. */
  lemma {:induction false} FreeFromSkipsUsed(fat: Fat, from: nat, c: nat, v: u16)
    requires c < from && c < |fat|
    ensures FreeFrom(fat[c := v], from) == FreeFrom(fat, from)
    decreases |fat| - from
  {
    if from < |fat| {
      FreeFromSkipsUsed(fat, from + 1, c, v);
      assert fat[c := v][from] == fat[from];
    }
  }

  /** Reserving the head of a free list takes it off the list and leaves
      the rest of the list as it was. */
  lemma {:induction false} ClaimHead(fat: Fat, from: nat)
    requires FreeFrom(fat, from) != []
    ensures var r := FreeFrom(fat, from);
      FreeFrom(fat[r[0] := FAT16_EOF], from) == r[1..]
    decreases |fat| - from
  {
    var r := FreeFrom(fat, from);
    var g := fat[r[0] := FAT16_EOF];
    if fat[from] == FAT16_FREE {
      assert r == [from as u16] + FreeFrom(fat, from + 1);
      assert FreeFrom(g, from) == FreeFrom(g, from + 1) by {
        assert g[from] == FAT16_EOF;
      }
      FreeFromSkipsUsed(fat, from + 1, from, FAT16_EOF);
    } else {
      assert r == FreeFrom(fat, from + 1);
      assert FreeFrom(g, from) == FreeFrom(g, from + 1) by {
        assert g[from] == fat[from];
      }
      ClaimHead(fat, from + 1);
    }
  }

  /** `fat` with every cluster of `cs` set to v: a pass of allocate_chain's
      reservation loop (v = EOF) or of its rollback loop (v = FREE). */
  function SetAll(fat: Fat, cs: seq<u16>, v: u16): (r: Fat)
    requires forall k :: 0 <= k < |cs| ==> cs[k] < |fat|
    ensures |r| == |fat|
    ensures forall j :: 0 <= j < |fat| ==> r[j] == if j in cs then v else fat[j]
  {
    if |cs| == 0 then fat
    else SetAll(fat, cs[..|cs| - 1], v)[cs[|cs| - 1] := v]
  }

  /** Where allocate_chain's reservation loop stands: `chosen` are the
      first free clusters of fat0, claimed with EOF in `cur`; what is still
      free in `cur` is the rest of fat0's free list, none of it below
      `cursor`. */
  predicate Reserving(fat0: Fat, cur: Fat, chosen: seq<u16>, cursor: nat)
  {
    && |chosen| <= |FreeClusters(fat0)| && chosen == FreeClusters(fat0)[..|chosen|]
    && cur == SetAll(fat0, chosen, FAT16_EOF)
    && FreeClusters(cur) == FreeClusters(fat0)[|chosen|..]
    && NoFreeBelow(cur, cursor)
  }

  /** One pass of the reservation loop: the search from the cursor comes
      back empty exactly when every free cluster has been chosen, and
      otherwise claiming what it found chooses the next free cluster. */
  lemma ReserveStep(fat0: Fat, cur: Fat, chosen: seq<u16>, cursor: nat)
    requires Reserving(fat0, cur, chosen, cursor)
    ensures var c := FirstFree(cur, cursor);
      && (c == 0 <==> |chosen| == |FreeClusters(fat0)|)
      && (c != 0 ==> c < |cur| && Reserving(fat0, cur[c := FAT16_EOF], chosen + [c as u16], c + 1))
      && (c != 0 ==> Reserving(fat0, cur[c := FAT16_EOF], chosen + [c as u16], 0))
  {
    var c := FirstFree(cur, cursor);
    FirstFreeAfterGap(cur, cursor);
    if c != 0 {
      var free0 := FreeClusters(fat0);
      var n := |chosen|;
      ClaimHead(cur, 2);
      ClaimWidensGap(cur, cursor, c);
      assert (chosen + [c as u16]) == free0[..n + 1];
      assert free0[n..][1..] == free0[n + 1..];
      assert SetAll(fat0, chosen + [c as u16], FAT16_EOF) == cur[c := FAT16_EOF] by {
        assert (chosen + [c as u16])[..n] == chosen;
      }
    }
  }

  /** Putting back FREE on clusters that were free before gives back the
      table: the rollback of a failed allocation changes nothing. */
  lemma RollbackRestores(fat: Fat, cs: seq<u16>)
    requires forall k :: 0 <= k < |cs| ==> cs[k] < |fat| && fat[cs[k]] == FAT16_FREE
    ensures SetAll(SetAll(fat, cs, FAT16_EOF), cs, FAT16_FREE) == fat
  {
    var r := SetAll(SetAll(fat, cs, FAT16_EOF), cs, FAT16_FREE);
    forall j | 0 <= j < |fat| ensures r[j] == fat[j] {
      if j in cs {
        var k :| 0 <= k < |cs| && cs[k] == j;
      }
    }
  }

  /** Claiming the first n free clusters and putting FREE back on them
      gives back the table. */
  lemma ReservationRollsBack(fat: Fat, n: nat)
    requires n <= |FreeClusters(fat)|
    ensures SetAll(SetAll(fat, FreeClusters(fat)[..n], FAT16_EOF), FreeClusters(fat)[..n], FAT16_FREE) == fat
  {
    var cs := FreeClusters(fat)[..n];
    assert forall k :: 0 <= k < |cs| ==> cs[k] == FreeClusters(fat)[k];
    RollbackRestores(fat, cs);
  }

  /** A chain as allocate_chain hands it out: distinct clusters of the
      table, in ascending order. */
  predicate Ascending(fat: Fat, chain: seq<u16>)
  {
    && (forall k :: 0 <= k < |chain| ==> 2 <= chain[k] < |fat|)
    && (forall k, l :: 0 <= k < l < |chain| ==> chain[k] < chain[l])
  }

  /** The first n free clusters form an ascending chain of free clusters. */
  lemma FreePrefixAscending(fat: Fat, n: nat)
    requires n <= |FreeClusters(fat)|
    ensures Ascending(fat, FreeClusters(fat)[..n])
    ensures forall k :: 0 <= k < n ==> fat[FreeClusters(fat)[k]] == FAT16_FREE
  {
  }

  /** The table after allocate_chain links an ascending chain, with the last
      cluster marked end-of-chain: each cluster points to the next one, the
      last holds EOF, and no other entry changes. */
  function Linked(fat: Fat, chain: seq<u16>): (r: Fat)
    requires |chain| >= 1 && Ascending(fat, chain)
    ensures |r| == |fat|
    ensures forall k :: 0 <= k < |chain| - 1 ==> r[chain[k]] == chain[k + 1]
    ensures r[chain[|chain| - 1]] == FAT16_EOF
    ensures forall j :: 0 <= j < |fat| && j !in chain ==> r[j] == fat[j]
  {
    if |chain| == 1 then fat[chain[0] := FAT16_EOF]
    else
      var rest := Linked(fat, chain[1..]);
      assert forall k :: 1 <= k < |chain| ==> chain[k] == chain[1..][k - 1];
      rest[chain[0] := chain[1]]
  }

  /** Linked is the only table that links the chain, ends it with EOF and
      leaves every other entry alone. */
  lemma LinkedIsUnique(fat: Fat, chain: seq<u16>, r: seq<u16>)
    requires |chain| >= 1 && Ascending(fat, chain) && |r| == |fat|
    requires forall k :: 0 <= k < |chain| - 1 ==> r[chain[k]] == chain[k + 1]
    requires r[chain[|chain| - 1]] == FAT16_EOF
    requires forall j :: 0 <= j < |fat| && j !in chain ==> r[j] == fat[j]
    ensures r == Linked(fat, chain)
  {
    var l := Linked(fat, chain);
    forall m | 0 <= m < |chain| ensures r[chain[m]] == l[chain[m]] {
      if m < |chain| - 1 {
        assert r[chain[m]] == chain[m + 1];
      }
    }
    forall j | 0 <= j < |fat| ensures r[j] == l[j] {
      if j in chain {
        var m :| 0 <= m < |chain| && chain[m] == j;
        assert r[chain[m]] == l[chain[m]];
      }
    }
  }

  /** Where allocate_chain's linking loop stands: the first k clusters of
      the chain point to their successors, the others still hold EOF, and
      no other entry has changed. */
  predicate Linking(fat0: Fat, chain: seq<u16>, cur: Fat, k: nat)
    requires Ascending(fat0, chain)
  {
    && |cur| == |fat0| && k < |chain|
    && (forall j :: 0 <= j < |fat0| && j !in chain ==> cur[j] == fat0[j])
    && (forall m :: 0 <= m < k ==> cur[chain[m]] == chain[m + 1])
    && (forall m :: k <= m < |chain| ==> cur[chain[m]] == FAT16_EOF)
  }

  /** Before the linking loop every chain cluster holds EOF. */
  lemma LinkingStarts(fat0: Fat, chain: seq<u16>)
    requires |chain| >= 1 && Ascending(fat0, chain)
    ensures Linking(fat0, chain, SetAll(fat0, chain, FAT16_EOF), 0)
  {
  }

  /** One pass of the linking loop links one more cluster, and the last
      one still holding EOF makes the table Linked. */
  lemma LinkStep(fat0: Fat, chain: seq<u16>, cur: Fat, k: nat)
    requires Ascending(fat0, chain) && Linking(fat0, chain, cur, k)
    ensures k + 1 < |chain| ==> Linking(fat0, chain, cur[chain[k] := chain[k + 1]], k + 1)
    ensures k + 1 == |chain| ==> cur[chain[k] := FAT16_EOF] == Linked(fat0, chain)
  {
    if k + 1 == |chain| {
      LinkedIsUnique(fat0, chain, cur[chain[k] := FAT16_EOF]);
    }
  }

  /** allocate_chain's table as written: the chain linked, then line 190's
      write of EOF into entry n - 1 instead of into the chain's last
      cluster. */
  function AllocatedAsWritten(fat: Fat, n: nat): (r: Fat)
    requires 1 <= n <= |FreeClusters(fat)|
    ensures |r| == |fat|
  {
    FreePrefixAscending(fat, n);
    Linked(fat, FreeClusters(fat)[..n])[n - 1 := FAT16_EOF]
  }

  /** The table allocate_chain evidently means to leave: the first n free
      clusters linked in ascending order, the last one marked EOF. */
  function Allocated(fat: Fat, n: nat): (r: Fat)
    requires 1 <= n <= |FreeClusters(fat)|
    ensures |r| == |fat|
  {
    FreePrefixAscending(fat, n);
    Linked(fat, FreeClusters(fat)[..n])
  }

  /** Allocated is the first n free clusters linked, the first of them a
      data cluster. */
  lemma AllocatedLinksFree(fat: Fat, n: nat)
    requires 1 <= n <= |FreeClusters(fat)|
    ensures Ascending(fat, FreeClusters(fat)[..n])
    ensures Allocated(fat, n) == Linked(fat, FreeClusters(fat)[..n])
    ensures FreeClusters(fat)[..n][0] == FreeClusters(fat)[0] >= 2
  {
    FreePrefixAscending(fat, n);
  }

  /** An all-free five-entry table: clusters 2, 3 and 4 are free. */
  lemma FreeOfEmptyTable()
    ensures FreeClusters([0, 0, 0, 0, 0]) == [2, 3, 4]
  {
    var f: Fat := [0, 0, 0, 0, 0];
    assert FreeFrom(f, 5) == [];
    assert FreeFrom(f, 4) == [4];
    assert FreeFrom(f, 3) == [3, 4];
  }

  /** Linking clusters 2, 3 and 4 of an all-free five-entry table. */
  lemma LinkedOfEmptyTable()
    ensures Ascending([0, 0, 0, 0, 0], [2, 3, 4])
    ensures Linked([0, 0, 0, 0, 0], [2, 3, 4]) == [0, 0, 3, 4, FAT16_EOF]
  {
    var f: Fat := [0, 0, 0, 0, 0];
    var c: seq<u16> := [2, 3, 4];
    var r: seq<u16> := [0, 0, 3, 4, FAT16_EOF];
    assert Ascending(f, c);
    assert r[c[0]] == c[1] && r[c[1]] == c[2] && r[c[2]] == FAT16_EOF;
    LinkedIsUnique(f, c, r);
  }

  /** The write into entry n - 1 truncates the chain: on a five-entry table
      with every cluster free, a three-cluster allocation takes clusters 2, 3
      and 4, and entry 2 ends up EOF, so the chain ends after its first
      cluster, whereas the intended table links 2 to 3. */
  lemma AllocationTruncatesChain()
    ensures FreeClusters([0, 0, 0, 0, 0]) == [2, 3, 4]
    ensures AllocatedAsWritten([0, 0, 0, 0, 0], 3) == [0, 0, FAT16_EOF, 4, FAT16_EOF]
    ensures Allocated([0, 0, 0, 0, 0], 3) == [0, 0, 3, 4, FAT16_EOF]
  {
    var f: Fat := [0, 0, 0, 0, 0];
    FreeOfEmptyTable();
    assert FreeClusters(f)[..3] == [2, 3, 4];
    LinkedOfEmptyTable();
    assert Allocated(f, 3) == Linked(f, [2, 3, 4]);
    assert AllocatedAsWritten(f, 3) == Linked(f, [2, 3, 4])[2 := FAT16_EOF];
  }

  /** The table as written agrees with the intended one exactly when entry
      n - 1 of the intended table already holds EOF; when n - 1 is not a
      cluster of the chain, that is when the untouched entry fat[n - 1]
      already holds EOF, and otherwise the write replaced someone else's
      entry. */
  lemma AsWrittenAgreesIff(fat: Fat, n: nat)
    requires 1 <= n <= |FreeClusters(fat)|
    ensures n - 1 < |fat|
    ensures AllocatedAsWritten(fat, n) == Allocated(fat, n) <==> Allocated(fat, n)[n - 1] == FAT16_EOF
    ensures (n - 1) as u16 !in FreeClusters(fat)[..n] ==>
      (AllocatedAsWritten(fat, n) == Allocated(fat, n) <==> fat[n - 1] == FAT16_EOF)
  {
    var a := Allocated(fat, n);
    assert AllocatedAsWritten(fat, n) == a[n - 1 := FAT16_EOF];
    assert a[n - 1 := FAT16_EOF] == a <==> a[n - 1] == FAT16_EOF by {
      UpdateKeepsIff(a, n - 1, FAT16_EOF);
    }
    if (n - 1) as u16 !in FreeClusters(fat)[..n] {
      assert a[n - 1] == fat[n - 1] by {
        AllocatedLinksFree(fat, n);
      }
    }
  }

  /** Writing v into entry i changes a table exactly when the entry does
      not already hold v. */
  lemma UpdateKeepsIff(s: seq<u16>, i: nat, v: u16)
    requires i < |s|
    ensures s[i := v] == s <==> s[i] == v
  {
    if s[i] != v {
      assert s[i := v][i] != s[i];
    }
  }

  /** A one-cluster allocation writes EOF into entry 0, which is never a
      cluster of the chain: the reserved entry that holds the media byte is
      overwritten, and the table is as intended only when entry 0 already
      held 0xFFFF. */
  lemma OneClusterOverwritesEntryZero(fat: Fat)
    requires 1 <= |FreeClusters(fat)|
    ensures 0 < |fat| && Allocated(fat, 1)[0] == fat[0]
    ensures AllocatedAsWritten(fat, 1) == Allocated(fat, 1)[0 := FAT16_EOF]
    ensures AllocatedAsWritten(fat, 1) == Allocated(fat, 1) <==> fat[0] == FAT16_EOF
  {
    AllocatedLinksFree(fat, 1);
    AsWrittenAgreesIff(fat, 1);
  }

  /** A sentinel at or above 0xFFF8 ends a chain. */
  predicate EndsChain(v: u16)
  {
    v >= FAT16_EOF_MIN
  }

  /** The walk of fat16_delete from cluster c after `steps` steps: while c
      is a cluster of the table below 0xFFF8, remember its successor, free
      it and move on; stop after the step that takes the count past `cap`. */
  function Release(fat: Fat, c: u16, steps: nat, cap: nat): (r: Fat)
    requires steps <= cap
    ensures |r| == |fat|
    decreases cap - steps
  {
    if 2 <= c < |fat| && !EndsChain(c) then
      var next := fat[c];
      var freed := fat[c := FAT16_FREE];
      if steps + 1 > cap then freed else Release(freed, next, steps + 1, cap)
    else fat
  }

  /** The release walk only ever writes FREE, and only into clusters in
      [2, 0xFFF8). */
  lemma {:induction false} ReleaseOnlyFrees(fat: Fat, c: u16, steps: nat, cap: nat)
    requires steps <= cap
    ensures var r := Release(fat, c, steps, cap);
      forall j :: 0 <= j < |fat| && r[j] != fat[j] ==> r[j] == FAT16_FREE && 2 <= j < FAT16_EOF_MIN
    decreases cap - steps
  {
    if 2 <= c < |fat| && !EndsChain(c) && steps + 1 <= cap {
      ReleaseOnlyFrees(fat[c := FAT16_FREE], fat[c], steps + 1, cap);
    }
  }

  /** The number of entries that are not FREE. */
  function InUse(fat: seq<u16>): (n: nat)
    ensures n <= |fat|
  {
    if |fat| == 0 then 0
    else InUse(fat[..|fat| - 1]) + if fat[|fat| - 1] != FAT16_FREE then 1 else 0
  }

  /** Freeing an entry in use lowers the count by one. */
  lemma {:induction false} FreeingLowersInUse(fat: seq<u16>, c: nat)
    requires c < |fat| && fat[c] != FAT16_FREE
    ensures InUse(fat[c := FAT16_FREE]) == InUse(fat) - 1
    decreases |fat|
  {
    var g := fat[c := FAT16_FREE];
    if c == |fat| - 1 {
      assert g[..|g| - 1] == fat[..|fat| - 1];
    } else {
      assert g[..|g| - 1] == fat[..|fat| - 1][c := FAT16_FREE];
      FreeingLowersInUse(fat[..|fat| - 1], c);
    }
  }

  /** The release walk without its step cap. It still ends, even on a
      cyclic chain: each step either frees an entry in use or frees an
      entry already free, whose successor 0 stops the walk. */
  function ReleaseUncapped(fat: Fat, c: u16): (r: Fat)
    ensures |r| == |fat|
    decreases InUse(fat), if 2 <= c < |fat| && !EndsChain(c) then 1 else 0
  {
    if 2 <= c < |fat| && !EndsChain(c) then
      var next := fat[c];
      if fat[c] != FAT16_FREE then
        FreeingLowersInUse(fat, c);
        ReleaseUncapped(fat[c := FAT16_FREE], next)
      else
        assert fat[c := FAT16_FREE] == fat;
        ReleaseUncapped(fat, next)
    else fat
  }

  /** The cap never cuts the walk short while the steps left are at least
      the entries in use. */
  lemma {:induction false} CapIrrelevant(fat: Fat, c: u16, steps: nat, cap: nat)
    requires steps <= cap && InUse(fat) <= cap - steps
    ensures Release(fat, c, steps, cap) == ReleaseUncapped(fat, c)
    decreases cap - steps
  {
    if 2 <= c < |fat| && !EndsChain(c) {
      var next := fat[c];
      var freed := fat[c := FAT16_FREE];
      if fat[c] != FAT16_FREE {
        FreeingLowersInUse(fat, c);
        CapIrrelevant(freed, next, steps + 1, cap);
      } else {
        assert freed == fat && next == 0;
      }
    }
  }

  /** Setting a cluster and then the rest of a list is setting the whole
      list. */
  lemma SetAllCons(fat: Fat, cs: seq<u16>, v: u16)
    requires |cs| >= 1 && forall k :: 0 <= k < |cs| ==> cs[k] < |fat|
    ensures SetAll(fat[cs[0] := v], cs[1..], v) == SetAll(fat, cs, v)
  {
    var a := SetAll(fat[cs[0] := v], cs[1..], v);
    var b := SetAll(fat, cs, v);
    forall j | 0 <= j < |fat| ensures a[j] == b[j] {
      if j in cs && j !in cs[1..] {
        var i :| 0 <= i < |cs| && cs[i] == j;
        assert i == 0;
      }
    }
  }

  /** Freeing one cluster of a chain keeps the links of the other
      clusters. */
  lemma FreeKeepsLinks(fat: Fat, chain: seq<u16>, k: nat)
    requires Ascending(fat, chain) && k < |chain|
    requires forall i :: k <= i < |chain| - 1 ==> fat[chain[i]] == chain[i + 1]
    ensures var freed := fat[chain[k] := FAT16_FREE];
      && (forall i :: k + 1 <= i < |chain| - 1 ==> freed[chain[i]] == chain[i + 1])
      && (k + 1 < |chain| ==> freed[chain[|chain| - 1]] == fat[chain[|chain| - 1]])
  {
  }

  /** Releasing from the k-th cluster of a linked chain whose clusters lie
      below 0xFFF7, with enough steps left, frees exactly the clusters from
      the k-th on. */
  lemma {:induction false} ReleaseChainFrom(fat: Fat, chain: seq<u16>, k: nat, cap: nat)
    requires Ascending(fat, chain) && k < |chain| && |chain| <= cap + 1
    requires forall i :: 0 <= i < |chain| ==> chain[i] < FAT16_BAD
    requires forall i :: k <= i < |chain| - 1 ==> fat[chain[i]] == chain[i + 1]
    requires EndsChain(fat[chain[|chain| - 1]])
    ensures Release(fat, chain[k], k, cap) == SetAll(fat, chain[k..], FAT16_FREE)
    decreases |chain| - k
  {
    var c := chain[k];
    var freed: Fat := fat[c := FAT16_FREE];
    SetAllCons(fat, chain[k..], FAT16_FREE);
    assert chain[k..][1..] == chain[k + 1..];
    if k + 1 < |chain| {
      assert Release(fat, c, k, cap) == Release(freed, chain[k + 1], k + 1, cap);
      FreeKeepsLinks(fat, chain, k);
      ReleaseChainFrom(freed, chain, k + 1, cap);
    } else {
      assert Release(fat, c, k, cap) == freed;
      assert chain[k + 1..] == [];
    }
  }

  /** Deleting what an allocation linked gives back the table it started
      from, when the table's clusters lie below 0xFFF7 and the chain is no
      longer than the step cap plus one. */
  lemma ReleaseUndoesAllocation(fat: Fat, n: nat, cap: nat)
    requires 1 <= n <= |FreeClusters(fat)| && n <= cap + 1 && |fat| <= FAT16_BAD as nat
    ensures Release(Allocated(fat, n), FreeClusters(fat)[0], 0, cap) == fat
  {
    var chain := FreeClusters(fat)[..n];
    FreePrefixAscending(fat, n);
    var l := Allocated(fat, n);
    ReleaseChainFrom(l, chain, 0, cap);
    assert chain[0..] == chain;
    var r := SetAll(l, chain, FAT16_FREE);
    forall j | 0 <= j < |fat| ensures r[j] == fat[j] {
      if j in chain {
        var i :| 0 <= i < n && chain[i] == j;
      }
    }
  }
}
