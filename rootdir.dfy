/** The root directory as a table of slots: which slots are free or hold a
    regular file (entry_free, entry_regular), the scans of find_by_name and
    find_free_dir, the listing of fat16_list_dir, the attribute view of
    fat16_show_attrs, and the slot updates of rename, delete and create. */
module RootDirectory {
  import opened Common
  import opened OnDisk
  import opened NameCodec
  import opened TimestampCodec

  /** entry_free: a slot never used or marked deleted. */
  predicate EntryFree(e: DirEntry)
  {
    e.filename[0] == NEVER_USED || e.filename[0] == DELETED
  }

  /** entry_regular: an occupied slot that is neither the volume label nor a
      directory. */
  predicate EntryRegular(e: DirEntry)
  {
    !EntryFree(e) && !HasFlag(e.attributes, ATTR_VOLUME_ID) && !HasFlag(e.attributes, ATTR_DIRECTORY)
  }

  function NameOf(e: DirEntry): Name83
  {
    Name83(e.filename, e.extension)
  }

  /** The slots find_by_name accepts for an 8.3 key. */
  predicate Matches(e: DirEntry, key: Name83)
  {
    EntryRegular(e) && NameOf(e) == key
  }

  /** find_by_name from slot i on: the first regular slot carrying the key. */
  function FindFrom(root: seq<DirEntry>, key: Name83, i: nat): (r: Option<nat>)
    ensures r.Some? ==> i <= r.value < |root| && Matches(root[r.value], key)
    ensures r.Some? ==> forall j :: i <= j < r.value ==> !Matches(root[j], key)
    ensures r.None? ==> forall j :: i <= j < |root| ==> !Matches(root[j], key)
    decreases |root| - i
  {
    if i >= |root| then None
    else if Matches(root[i], key) then Some(i)
    else FindFrom(root, key, i + 1)
  }

  /** find_by_name: the first regular slot whose name and extension are the
      8.3 form of `name`. */
  function FindEntry(root: seq<DirEntry>, name: seq<byte>): Option<nat>
  {
    FindFrom(root, To83(name), 0)
  }

  /** find_free_dir from slot i on: the first free slot. */
  function FreeSlotFrom(root: seq<DirEntry>, i: nat): (r: Option<nat>)
    ensures r.Some? ==> i <= r.value < |root| && EntryFree(root[r.value])
    ensures r.Some? ==> forall j :: i <= j < r.value ==> !EntryFree(root[j])
    ensures r.None? ==> forall j :: i <= j < |root| ==> !EntryFree(root[j])
    decreases |root| - i
  {
    if i >= |root| then None
    else if EntryFree(root[i]) then Some(i)
    else FreeSlotFrom(root, i + 1)
  }

  function FreeSlot(root: seq<DirEntry>): Option<nat>
  {
    FreeSlotFrom(root, 0)
  }

  /** No two regular slots carry the same 8.3 name. */
  predicate UniqueNames(root: seq<DirEntry>)
  {
    forall i, j :: 0 <= i < j < |root| && EntryRegular(root[i]) && EntryRegular(root[j]) ==>
      NameOf(root[i]) != NameOf(root[j])
  }

  /** With unique names, the slot find_by_name returns is the only slot
      carrying the key. */
  lemma FoundIsOnly(root: seq<DirEntry>, key: Name83)
    requires UniqueNames(root) && FindFrom(root, key, 0).Some?
    ensures forall j :: 0 <= j < |root| && Matches(root[j], key) ==> j == FindFrom(root, key, 0).value
  {
  }

  /** One line of fat16_list_dir: the display name and the size. */
  datatype Listed = Listed(name: seq<byte>, size: u32)

  function ListedOf(e: DirEntry): Listed
  {
    Listed(Readable(NameOf(e)), e.fileSize)
  }

  /** fat16_list_dir: the regular slots, in slot order. */
  function Listing(root: seq<DirEntry>): (r: seq<Listed>)
    ensures |r| <= |root|
  {
    if |root| == 0 then []
    else
      var last := root[|root| - 1];
      Listing(root[..|root| - 1]) + if EntryRegular(last) then [ListedOf(last)] else []
  }

  /** A line is listed exactly when some regular slot shows it. */
  lemma {:induction false} ListingMembership(root: seq<DirEntry>, x: Listed)
    ensures x in Listing(root) <==> exists i :: 0 <= i < |root| && EntryRegular(root[i]) && x == ListedOf(root[i])
  {
    if |root| > 0 {
      var init := root[..|root| - 1];
      ListingMembership(init, x);
      if x in Listing(init) {
        var i :| 0 <= i < |init| && EntryRegular(init[i]) && x == ListedOf(init[i]);
        assert root[i] == init[i];
      }
      if exists i :: 0 <= i < |root| && EntryRegular(root[i]) && x == ListedOf(root[i]) {
        var i :| 0 <= i < |root| && EntryRegular(root[i]) && x == ListedOf(root[i]);
        if i < |root| - 1 {
          assert init[i] == root[i];
        }
      }
    }
  }

  /** The number of regular slots: the total fat16_list_dir prints. */
  function RegularCount(root: seq<DirEntry>): nat
  {
    if |root| == 0 then 0
    else RegularCount(root[..|root| - 1]) + if EntryRegular(root[|root| - 1]) then 1 else 0
  }

  /** The listing has one line per regular slot. */
  lemma {:induction false} ListingCounts(root: seq<DirEntry>)
    ensures |Listing(root)| == RegularCount(root)
  {
    if |root| > 0 {
      ListingCounts(root[..|root| - 1]);
    }
  }

  /** What fat16_show_attrs shows of an entry. */
  datatype Attributes = Attributes(
    size: u32,
    createdOn: Date, createdAt: Time,
    modifiedOn: Date, modifiedAt: Time,
    readOnly: bool, hidden: bool, system: bool, archive: bool)

  function AttributesOf(e: DirEntry): Attributes
  {
    Attributes(e.fileSize,
      DecodeDate(e.creationDate), DecodeTime(e.creationTime),
      DecodeDate(e.lastModDate), DecodeTime(e.lastModTime),
      HasFlag(e.attributes, ATTR_READ_ONLY), HasFlag(e.attributes, ATTR_HIDDEN),
      HasFlag(e.attributes, ATTR_SYSTEM), HasFlag(e.attributes, ATTR_ARCHIVE))
  }

  /** fat16_rename's update of the found slot: the new 8.3 name and the
      modification stamp; nothing else changes. */
  function Renamed(e: DirEntry, key: Name83, date: u16, time: u16): (r: DirEntry)
    ensures NameOf(r) == key && r.lastModDate == date && r.lastModTime == time
    ensures r.(filename := e.filename, extension := e.extension, lastModDate := e.lastModDate, lastModTime := e.lastModTime) == e
  {
    e.(filename := key.name, extension := key.ext, lastModDate := date, lastModTime := time)
  }

  /** fat16_delete's update of the found slot: the first name byte becomes
      the deleted mark; nothing else changes. */
  function MarkedDeleted(e: DirEntry): (r: DirEntry)
    ensures EntryFree(r) && !EntryRegular(r)
    ensures r.filename[1..] == e.filename[1..] && r.(filename := e.filename) == e
  {
    e.(filename := e.filename[0 := DELETED])
  }

  /** fat16_create's new slot: zero except the 8.3 name, the archive flag,
      the first cluster, the size and the creation, modification and access
      stamps. */
  function NewEntry(key: Name83, first: u16, size: u32, date: u16, time: u16): (r: DirEntry)
    ensures NameOf(r) == key && r.attributes == ATTR_ARCHIVE
    ensures r.firstClusterLow == first && r.fileSize == size
    ensures r.reserved == 0 && r.creationTimeTenth == 0 && r.firstClusterHigh == 0
    ensures r.creationDate == r.lastModDate == r.lastAccessDate == date
    ensures r.creationTime == r.lastModTime == time
  {
    DirEntry(key.name, key.ext, ATTR_ARCHIVE, 0, 0, time, date, date, 0, time, date, first, size)
  }

  /** A created file shows its size and creation stamp twice, the archive
      flag and no other flag. */
  lemma NewEntryAttributes(key: Name83, first: u16, size: u32, date: u16, time: u16)
    ensures var a := AttributesOf(NewEntry(key, first, size, date, time));
      && a.size == size
      && a.createdOn == a.modifiedOn == DecodeDate(date)
      && a.createdAt == a.modifiedAt == DecodeTime(time)
      && a.archive && !a.readOnly && !a.hidden && !a.system
  {
    FlagsAreDistinctBits();
  }

  /** An 8.3 name whose first byte does not mark a free slot. */
  predicate Occupies(key: Name83)
  {
    key.name[0] != NEVER_USED && key.name[0] != DELETED
  }

  /** Renaming the slot found under `from` to a name no regular slot
      carries: afterwards the slot is found under the new name; and when
      names were unique they stay unique and nothing is found under the old
      name. */
  lemma RenameKeepsNamesUnique(root: seq<DirEntry>, i: nat, from: Name83, to: Name83, date: u16, time: u16)
    requires FindFrom(root, from, 0) == Some(i)
    requires FindFrom(root, to, 0).None? && Occupies(to)
    ensures var r := root[i := Renamed(root[i], to, date, time)];
      && FindFrom(r, to, 0) == Some(i)
      && (UniqueNames(root) ==> UniqueNames(r) && FindFrom(r, from, 0).None?)
  {
    var r := root[i := Renamed(root[i], to, date, time)];
    assert EntryRegular(r[i]) by {
      assert r[i].attributes == root[i].attributes;
    }
    forall j | 0 <= j < |r| && j != i ensures !Matches(r[j], to) {
      assert r[j] == root[j];
    }
    if UniqueNames(root) {
      forall j | 0 <= j < |r| && j != i ensures !Matches(r[j], from) {
        assert r[j] == root[j];
      }
      assert from != to;
    }
  }

  /** Marking the found slot deleted keeps names unique, and afterwards the
      name is found nowhere. */
  lemma DeleteForgetsName(root: seq<DirEntry>, i: nat, key: Name83)
    requires UniqueNames(root) && FindFrom(root, key, 0) == Some(i)
    ensures var r := root[i := MarkedDeleted(root[i])];
      UniqueNames(r) && FindFrom(r, key, 0).None?
  {
    var r := root[i := MarkedDeleted(root[i])];
    forall j | 0 <= j < |r| && j != i ensures r[j] == root[j] && !Matches(r[j], key) {
    }
  }

  /** Placing an entry under a name no regular slot carries: the name is
      then found at that slot, and once the entry is marked deleted it is
      found nowhere again. */
  lemma PlacedIsFound(root: seq<DirEntry>, i: nat, key: Name83, e: DirEntry)
    requires FindFrom(root, key, 0).None? && i < |root| && Matches(e, key)
    ensures FindFrom(root[i := e], key, 0) == Some(i)
    ensures FindFrom(root[i := MarkedDeleted(e)], key, 0).None?
  {
    var r := root[i := e];
    assert r[i] == e;
    forall j | 0 <= j < |r| && j != i ensures r[j] == root[j] && !Matches(r[j], key) {
    }
    var gone := root[i := MarkedDeleted(e)];
    forall j | 0 <= j < |gone| ensures !Matches(gone[j], key) {
      if j != i {
        assert gone[j] == root[j];
      }
    }
  }

  /** Filling a free slot with a new entry under a name no regular slot
      carries: the name is then found there, and unique names stay
      unique. */
  lemma CreateKeepsNamesUnique(root: seq<DirEntry>, i: nat, key: Name83, first: u16, size: u32, date: u16, time: u16)
    requires FindFrom(root, key, 0).None?
    requires FreeSlotFrom(root, 0) == Some(i) && Occupies(key)
    ensures var r := root[i := NewEntry(key, first, size, date, time)];
      FindFrom(r, key, 0) == Some(i) && (UniqueNames(root) ==> UniqueNames(r))
  {
    var r := root[i := NewEntry(key, first, size, date, time)];
    FlagsAreDistinctBits();
    assert EntryRegular(r[i]);
    forall j | 0 <= j < |r| && j != i ensures r[j] == root[j] && !Matches(r[j], key) {
    }
  }
}
