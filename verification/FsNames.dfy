/** What making and removing a file do to the names of the other files, for every state that a
    run can reach: exactly when none of them is lost. */
module FsNames {
  import opened FsBits
  import opened FsDevice
  import opened FsMaps
  import opened FsInodes
  import opened FsDirectory
  import opened FsEntries
  import opened FsState
  import opened FsInvariant
  import opened FsTables
  import opened FsCreate
  import opened FsRemove
  import opened FsRuns

  // ---------------------------------------------------------------- looking a name up

  /** The first entry with the name is found if the search gets that far. */
  lemma SearchFirst(dir: seq<Entry>, size: nat, root: nat, name: seq<byte>, e: nat)
    requires |dir| == DIR_SLOTS && size <= DIR_SECTS * SECTOR_SIZE && GoodName(name)
    requires e < |dir| && dir[e].name == Padded(name) && forall i | 0 <= i < e :: dir[i].name != Padded(name)
    ensures Search(dir, size, root, name) == if e < SearchEnd(size) then dir[e].nr else 0
  {
    StripPathOfName(name);
    hide Padded, FindName;
    if e < SearchEnd(size) {
      FindNameBelow(dir, Padded(name), e, SearchEnd(size));
    }
  }

  lemma SearchNothing(dir: seq<Entry>, size: nat, root: nat, name: seq<byte>)
    requires |dir| == DIR_SLOTS && size <= DIR_SECTS * SECTOR_SIZE && GoodName(name)
    requires forall i | 0 <= i < |dir| :: dir[i].name != Padded(name)
    ensures Search(dir, size, root, name) == 0
  {
    StripPathOfName(name);
    hide Padded, FindName;
  }

  /** In a directory as it should be, only one entry has a good name, and that is in use. */
  lemma OnlyEntry(dir: seq<Entry>, name: seq<byte>, e: nat)
    requires UnusedZero(dir) && Distinct(dir) && GoodName(name) && e < |dir| && dir[e].name == Padded(name)
    ensures dir[e].nr != 0 && forall i | 0 <= i < |dir| && i != e :: dir[i].name != Padded(name)
  {
    PaddedNotEmpty(name);
    NamedUsed(dir, Padded(name));
    hide Padded;
    forall i | 0 <= i < |dir| && i != e ensures dir[i].name != Padded(name) {
      assert i < e || e < i;
    }
  }

  // ---------------------------------------------------------------- removing the last entry

  /** When the last entry is removed, all other names stand for what they stood for, if and only
      if no used entry before it is where a search no longer looks. */
  lemma ShrinkKeepsNames(dir: seq<Entry>, size: nat, root: nat, e: nat)
    requires DirOk(dir, size) && e + 1 == size / 16 && dir[e].nr != 0
    ensures (forall name | GoodName(name) && Padded(name) != dir[e].name ::
               Search(dir[e := NO_ENTRY], ShrunkSize(dir, size, e), root, name) == Search(dir, size, root, name))
            <==> forall i | SearchEnd(ShrunkSize(dir, size, e)) <= i < e :: dir[i].nr == 0
  {
    var dir', size' := dir[e := NO_ENTRY], ShrunkSize(dir, size, e);
    hide Search, Padded, ShrunkSize;
    if i :| SearchEnd(size') <= i < e && dir[i].nr != 0 {
      var name :| GoodName(name) && dir[i].name == Padded(name);
      LostName(dir, size, size', root, e, i, name);
    }
    if forall i | SearchEnd(size') <= i < e :: dir[i].nr == 0 {
      forall name | GoodName(name) && Padded(name) != dir[e].name
        ensures Search(dir', size', root, name) == Search(dir, size, root, name)
      {
        KeptName(dir, size, size', root, e, name);
      }
    }
  }

  lemma LostName(dir: seq<Entry>, size: nat, size': nat, root: nat, e: nat, i: nat, name: seq<byte>)
    requires DirOk(dir, size) && e + 1 == size / 16 && size' <= size && GoodName(name)
    requires SearchEnd(size') <= i < e && dir[i].name == Padded(name)
    ensures Padded(name) != dir[e].name && dir[i].nr != 0
    ensures Search(dir, size, root, name) == dir[i].nr && Search(dir[e := NO_ENTRY], size', root, name) == 0
  {
    OnlyEntry(dir, name, i);
    PaddedNotEmpty(name);
    hide Padded, Search;
    SearchFirst(dir, size, root, name, i);
    SearchFirst(dir[e := NO_ENTRY], size', root, name, i);
  }

  lemma KeptName(dir: seq<Entry>, size: nat, size': nat, root: nat, e: nat, name: seq<byte>)
    requires DirOk(dir, size) && e + 1 == size / 16 && size' <= size && GoodName(name) && Padded(name) != dir[e].name
    requires forall i | SearchEnd(size') <= i < e :: dir[i].nr == 0
    ensures Search(dir[e := NO_ENTRY], size', root, name) == Search(dir, size, root, name)
  {
    PaddedNotEmpty(name);
    hide Padded, Search;
    var dir' := dir[e := NO_ENTRY];
    if i: nat :| i < |dir| && dir[i].name == Padded(name) {
      OnlyEntry(dir, name, i);
      SearchFirst(dir, size, root, name, i);
      SearchFirst(dir', size', root, name, i);
    } else {
      SearchNothing(dir, size, root, name);
      SearchNothing(dir', size', root, name);
    }
  }

  /** If there is one hole before the last entry, a name is lost exactly when the entry before the
      last is in use and begins a sector. */
  lemma OneHoleKeepsNames(dir: seq<Entry>, size: nat, root: nat, e: nat)
    requires DirOk(dir, size) && e + 1 == size / 16 && dir[e].nr != 0 && LiveBelow(dir, e) + 1 == e
    ensures (forall name | GoodName(name) && Padded(name) != dir[e].name ::
               Search(dir[e := NO_ENTRY], ShrunkSize(dir, size, e), root, name) == Search(dir, size, root, name))
            <==> dir[e - 1].nr == 0 || e % 32 != 1
  {
    hide Search, Padded, LiveBelow;
    ShrinkKeepsNames(dir, size, root, e);
    assert SearchEnd(ShrunkSize(dir, size, e)) == if e % 32 == 1 then e - 1 else e;
  }

  /** Such an entry behind the last one is found all the same, unless it begins a sector. */
  lemma BehindLast(dir: seq<Entry>, size: nat, root: nat, lost: seq<byte>)
    requires |dir| == DIR_SLOTS && size < DIR_SECTS * SECTOR_SIZE && size % 16 == 0 && GoodName(lost)
    requires dir[size / 16].name == Padded(lost) && forall i | 0 <= i < size / 16 :: dir[i].name != Padded(lost)
    ensures Search(dir, size, root, lost) == if size % SECTOR_SIZE == 0 then 0 else dir[size / 16].nr
  {
    hide Search, Padded;
    SearchFirst(dir, size, root, lost, size / 16);
  }

  /** But a new name that finds no unused entry is written over it. */
  lemma OverwrittenName(dir: seq<Entry>, size: nat, root: nat, nr: nat, name: seq<byte>, lost: seq<byte>)
    requires |dir| == DIR_SLOTS && size < DIR_SECTS * SECTOR_SIZE && size % 16 == 0 && FirstUnused(dir, size / 16) == size / 16
    requires GoodName(name) && GoodName(lost) && lost != name && dir[size / 16].name == Padded(lost)
    requires forall i | 0 <= i < |dir| && i != size / 16 :: dir[i].name != Padded(lost)
    ensures Search(AddName(dir, FirstUnused(dir, size / 16), nr, name), GrownSize(dir, size), root, lost) == 0
  {
    AddedNames(dir, size / 16, nr, name);
    assert GrownSize(dir, size) == size + 16;
    hide Search, Padded, FirstUnused, AddName, GrownSize;
    if Renamed(dir[size / 16], nr, name).name == Padded(lost) {
      RenamedInjective(dir[size / 16], nr, name, lost);
    }
    hide Renamed, GoodName;
    SearchNothing(AddName(dir, size / 16, nr, name), size + 16, root, lost);
  }

  lemma AddedNames(dir: seq<Entry>, e: nat, nr: nat, name: seq<byte>)
    requires |dir| == DIR_SLOTS && e < |dir| && |name| <= 12
    ensures var dir' := AddName(dir, e, nr, name);
            && |dir'| == |dir| && dir'[e].name == Renamed(dir[e], nr, name).name
            && forall i | 0 <= i < |dir| && i != e :: dir'[i].name == dir[i].name
  {}

  lemma RenamedInjective(x: Entry, nr: nat, name: seq<byte>, lost: seq<byte>)
    requires GoodName(name) && GoodName(lost) && Renamed(x, nr, name).name == Padded(lost)
    ensures name == lost
  {
    var y := Renamed(x, nr, name).name;
    PaddedZeros(lost);
    assert |name| < 12 ==> Padded(lost)[|name|] == y[|name|] == 0;
    assert Padded(lost)[|name| - 1] == y[|name| - 1] == name[|name| - 1] && name[|name| - 1] in name;
    assert lost == Padded(lost)[..|lost|] && name == y[..|name|];
  }

  /** The request removes the last entry of the directory. */
  ghost predicate RemovesLast(fs: Fs, path: seq<byte>)
    requires Inv(fs) && Shape(fs)
  {
    && Unlinked(fs, path).1 == Done && EntryOf(fs, Lookup(fs, path)) + 1 == DirSize(fs.table) / 16
  }

  lemma RemovedDir(fs: Fs, t: seq<Slot>, nr: nat, p: nat, e: nat)
    requires Shape(fs) && |t| == |fs.table| && p < |t| && 0 < nr < MAP_BITS && Mapped(fs, t, p)
    requires e < DirSize(fs.table) / 16 && ShrunkSize(fs.dir, DirSize(fs.table), e) <= DirSize(fs.table)
    ensures var fs' := Unnamed(Released(fs, t, nr, p), e);
            && Shape(fs') && fs'.dir == fs.dir[e := NO_ENTRY] && DirSize(fs'.table) == ShrunkSize(fs.dir, DirSize(fs.table), e)
            && fs'.table[ROOT_SLOT].num == fs.table[ROOT_SLOT].num && fs'.table[ROOT_SLOT].cnt == fs.table[ROOT_SLOT].cnt
            && fs'.imapBits == fs.imapBits[nr := false] && fs'.fdt == fs.fdt && fs'.filp == fs.filp
            && fs'.nSmap == fs.nSmap && fs'.data == fs.data
            && fs'.smapBits == SetRange(fs.smapBits, ExtentBit(fs.nSmap, t[p].ino), t[p].ino.nr, false)
            && (forall i | 0 <= i < NR_INODES && i + 1 != nr && i + 1 != fs.table[ROOT_SLOT].num :: fs'.inodes[i] == fs.inodes[i])
            && (nr != fs.table[ROOT_SLOT].num ==> fs'.inodes[nr - 1] == NO_FILE)
            && fs'.table[p].cnt == 0 && forall q | 0 < q < NR_INODE && q != p :: fs'.table[q] == t[q]
  {
    hide SetRange, ShrunkSize;
  }

  /** The sectors of the inode are in the map. */
  predicate InMap(fs: Fs, nr: nat)
    requires Shape(fs)
  {
    && 0 < nr <= NR_INODES && ExtentBit(fs.nSmap, fs.inodes[nr - 1]) >= 0
    && ExtentBit(fs.nSmap, fs.inodes[nr - 1]) + fs.inodes[nr - 1].nr <= |fs.smapBits|
  }

  /** What a request that removes a file does to the directory. */
  lemma UnlinkedDir(fs: Fs, path: seq<byte>)
    requires Inv(fs) && Shape(fs) && Unlinked(fs, path).1 == Done
    ensures var fs', nr := Unlinked(fs, path).0, Lookup(fs, path);
            && Shape(fs') && 0 < nr < MAP_BITS && StripPath(path).Name? && path != [SLASH]
            && var e := EntryOf(fs, nr);
            && e < DirSize(fs.table) / 16 && fs.dir[e].nr == nr
            && fs'.dir == fs.dir[e := NO_ENTRY] && DirSize(fs'.table) == ShrunkSize(fs.dir, DirSize(fs.table), e)
            && fs'.table[ROOT_SLOT].num == fs.table[ROOT_SLOT].num && fs'.table[ROOT_SLOT].cnt == fs.table[ROOT_SLOT].cnt
            && fs'.imapBits == fs.imapBits[nr := false] && fs'.fdt == fs.fdt && fs'.filp == fs.filp
            && fs'.nSmap == fs.nSmap && fs'.data == fs.data && InMap(fs, nr)
            && fs'.smapBits == SetRange(fs.smapBits, ExtentBit(fs.nSmap, fs.inodes[nr - 1]), fs.inodes[nr - 1].nr, false)
            && (forall i | 0 <= i < NR_INODES && i + 1 != nr && i + 1 != ROOT_INODE :: fs'.inodes[i] == fs.inodes[i])
            && (nr != ROOT_INODE ==> fs'.inodes[nr - 1] == NO_FILE)
            && forall q | 0 < q < NR_INODE :: fs'.table[q].cnt <= fs.table[q].cnt
  {
    UnlinkConsistent(fs, path);
    LookupInUse(fs, path);
    RootFacts(fs);
    assert DirOk(fs.dir, DirSize(fs.table));
    hide Inv, Lookup, ShrunkSize, Released, Unnamed, DirOk, Get, FirstWith, StripPath;
    var nr := Lookup(fs, path);
    if nr != 0 && Get(fs.table, fs.inodes, nr).1.At? {
      GetInv(fs, nr);
      HasEntry(fs, nr);
      ShrunkNoMore(fs.dir, DirSize(fs.table), EntryOf(fs, nr));
      var g := Get(fs.table, fs.inodes, nr);
      GetGot(fs.table, fs.inodes, nr);
      if Removable(g.0, g.1.p) {
        RemovedDir(fs, g.0, nr, g.1.p, EntryOf(fs, nr));
      }
    }
  }

  lemma ShrunkNoMore(dir: seq<Entry>, size: nat, e: nat)
    requires e < size / 16 <= |dir|
    ensures ShrunkSize(dir, size, e) <= size
  {
    LiveAtMost(dir, e);
  }

  lemma {:induction false} LiveAtMost(dir: seq<Entry>, n: nat)
    requires n <= |dir|
    ensures LiveBelow(dir, n) <= n
  {
    if n > 0 {
      LiveAtMost(dir, n - 1);
    }
  }

  /** When a request removes the last entry, all other names stand for what they stood for, if
      and only if no used entry before it is where a search no longer looks. */
  lemma UnlinkKeepsNames(fs: Fs, path: seq<byte>)
    requires Inv(fs) && Shape(fs) && RemovesLast(fs, path) && 0 !in path
    ensures Shape(Unlinked(fs, path).0) && StripPath(path).Name?
    ensures var fs', e := Unlinked(fs, path).0, EntryOf(fs, Lookup(fs, path));
            (forall name | GoodName(name) && name != StripPath(path).name :: Lookup(fs', name) == Lookup(fs, name))
            <==> forall i | SearchEnd(DirSize(fs'.table)) <= i < e :: fs.dir[i].nr == 0
  {
    UnlinkedDir(fs, path);
    UnlinkedName(fs, path);
    RootFacts(fs);
    hide Inv, Unlinked, EntryOf, ShrunkSize, Padded, Search;
    var name, e := StripPath(path).name, EntryOf(fs, Lookup(fs, path));
    ShrinkKeepsNames(fs.dir, DirSize(fs.table), ROOT_INODE, e);
    forall other | GoodName(other) ensures Padded(other) != fs.dir[e].name <==> other != name {
      if Padded(other) == fs.dir[e].name {
        PaddedInjective(other, name);
      }
    }
  }

  /** The entry of a file that is removed has the name that the path stands for. */
  lemma UnlinkedName(fs: Fs, path: seq<byte>)
    requires Inv(fs) && Shape(fs) && 0 !in path && Unlinked(fs, path).1 == Done
    ensures StripPath(path).Name? && GoodName(StripPath(path).name) && DirOk(fs.dir, DirSize(fs.table))
    ensures fs.dir[EntryOf(fs, Lookup(fs, path))].name == Padded(StripPath(path).name)
  {
    UnlinkedDir(fs, path);
    RootFacts(fs);
    var e, f := EntryOf(fs, Lookup(fs, path)), FindName(fs.dir, Padded(StripPath(path).name), SearchEnd(DirSize(fs.table)));
    hide Padded, FindName, EntryOf, InodesOk, ExtentsDisjoint, SectorMapExact, Counted, DescsOk, FilesOk, Coherent, InodeMapExact;
    if StripPath(path).name == [] {
      NotRemovable(fs, path);
    } else {
      assert f >= 0 && fs.dir[f].nr == fs.dir[e].nr != 0;
      assert f < e || f == e || e < f;
    }
  }

  lemma NotRemovable(fs: Fs, path: seq<byte>)
    requires Inv(fs) && Shape(fs) && Lookup(fs, path) == ROOT_INODE
    ensures Unlinked(fs, path).1 != Done
  {
    RootFacts(fs);
    GetInv(fs, ROOT_INODE);
    UnlinkConsistent(fs, path);
    hide Inv, Lookup;
  }

  // ---------------------------------------------------------------- making a file

  /** When a name is added, all others stand for what they stood for, if and only if it fits. */
  lemma AddKeepsNames(dir: seq<Entry>, size: nat, root: nat, nr: nat, name: seq<byte>)
    requires DirOk(dir, size) && GoodName(name) && Unused(dir, name) && nr > 0
    ensures var e := FirstUnused(dir, size / 16);
            (forall other | GoodName(other) && other != name ::
               Search(AddName(dir, e, nr, name), GrownSize(dir, size), root, other) == Search(dir, size, root, other))
            <==> Fits(dir, e, name)
  {
    var e, size' := FirstUnused(dir, size / 16), GrownSize(dir, size);
    var dir' := AddName(dir, e, nr, name);
    assert size' >= size;
    hide FirstUnused, Search, Padded;
    if Fits(dir, e, name) {
      NewEntry(dir, size, nr, name);
      forall other | GoodName(other) && other != name
        ensures Search(dir', size', root, other) == Search(dir, size, root, other)
      {
        OtherName(dir, size, size', root, e, Entry(nr, Padded(name)), name, other);
      }
    } else {
      var other :| GoodName(other) && dir[e + 1].name == Padded(other);
      SpilledName(dir, size, size', root, nr, e, name, other);
    }
  }

  lemma OtherName(dir: seq<Entry>, size: nat, size': nat, root: nat, e: nat, x: Entry, name: seq<byte>, other: seq<byte>)
    requires DirOk(dir, size) && size <= size' <= size + 16 && e < |dir| && dir[e] == NO_ENTRY
    requires GoodName(name) && GoodName(other) && other != name && x.name == Padded(name)
    ensures Search(dir[e := x], size', root, other) == Search(dir, size, root, other)
  {
    PaddedNotEmpty(other);
    if Padded(name) == Padded(other) {
      PaddedInjective(name, other);
    }
    hide Padded, Search;
    if i: nat :| i < |dir| && dir[i].name == Padded(other) {
      OnlyEntry(dir, other, i);
      SearchCovers(dir, size, i);
      SearchFirst(dir, size, root, other, i);
      SearchFirst(dir[e := x], size', root, other, i);
    } else {
      SearchNothing(dir, size, root, other);
      SearchNothing(dir[e := x], size', root, other);
    }
  }

  lemma SpilledName(dir: seq<Entry>, size: nat, size': nat, root: nat, nr: nat, e: nat, name: seq<byte>, other: seq<byte>)
    requires DirOk(dir, size) && size <= size' <= size + 16 && GoodName(name) && GoodName(other) && Unused(dir, name)
    requires e < |dir| && dir[e].nr == 0 && !Fits(dir, e, name) && dir[e + 1].name == Padded(other)
    ensures other != name && Search(AddName(dir, e, nr, name), size', root, other) != Search(dir, size, root, other)
  {
    OnlyEntry(dir, other, e + 1);
    assert Unused(dir, name) && dir[e + 1].name == Padded(other) ==> other != name;
    assert Renamed(dir[e], nr, name).name == Padded(name);
    hide Padded, Search;
    SearchCovers(dir, size, e + 1);
    SearchFirst(dir, size, root, other, e + 1);
    SearchFirst(AddName(dir, e, nr, name), size', root, other, e + 1);
  }

  /** What a request that makes a file does to the directory. */
  lemma OpenedDir(fs: Fs, caller: nat, path: seq<byte>, flags: nat)
    requires Inv(fs) && Shape(fs) && CanOpen(fs, caller, path, flags) && CreatesNew(fs, path, flags)
    requires Opened(fs, caller, path, flags).1.Fd?
    ensures var fs' := Opened(fs, caller, path, flags).0;
            && Shape(fs') && fs'.table[ROOT_SLOT].num == ROOT_INODE && fs'.imapBits == fs.imapBits[FirstFree(fs.imapBits) := true]
            && fs'.dir == AddName(fs.dir, FirstUnused(fs.dir, DirSize(fs.table) / 16), FirstFree(fs.imapBits), StripPath(path).name)
            && DirSize(fs'.table) == GrownSize(fs.dir, DirSize(fs.table))
            && fs'.nSmap == fs.nSmap && fs'.data == fs.data && 0 < FirstFree(fs.imapBits) < MAP_BITS
            && FirstFree(fs.smapBits) + FILE_SECTS <= |fs.smapBits|
            && fs'.smapBits == SetRange(fs.smapBits, FirstFree(fs.smapBits), FILE_SECTS, true)
            && forall i | 0 <= i < NR_INODES && i + 1 != FirstFree(fs.imapBits) && i + 1 != ROOT_INODE :: fs'.inodes[i] == fs.inodes[i]
  {
    RootFacts(fs);
    LookupInUse(fs, path);
    RoomLeftFacts(fs);
    hide Inv, Lookup, FindUsed, FindFree, FirstFree, FirstUnused, AddName, SetRange, FreeFd, FreeDesc, RoomLeft;
  }

  /** When a request makes a file, all other names stand for what they stood for, if and only if
      the new name fits. */
  lemma OpenKeepsNames(fs: Fs, caller: nat, path: seq<byte>, flags: nat)
    requires Inv(fs) && Shape(fs) && CanOpen(fs, caller, path, flags) && CreatesNew(fs, path, flags)
    requires Opened(fs, caller, path, flags).1.Fd?
    ensures Shape(Opened(fs, caller, path, flags).0)
    ensures (forall name | GoodName(name) && name != StripPath(path).name ::
               Lookup(Opened(fs, caller, path, flags).0, name) == Lookup(fs, name))
            <==> NameFits(fs, StripPath(path).name)
  {
    OpenedDir(fs, caller, path, flags);
    LookupUnused(fs, path);
    RoomLeftFacts(fs);
    RootFacts(fs);
    assert DirOk(fs.dir, DirSize(fs.table));
    hide Inv, Opened, AddName, FirstUnused, Search, FirstFree, DirOk, RoomLeft, HasRoom;
    AddKeepsNames(fs.dir, DirSize(fs.table), ROOT_INODE, FirstFree(fs.imapBits), StripPath(path).name);
  }
}
