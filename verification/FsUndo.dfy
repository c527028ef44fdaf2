/** Making a file, closing it and removing it again undo one another. */
module FsUndo {
  import opened FsBits
  import opened FsMaps
  import opened FsInodes
  import opened FsDirectory
  import opened FsEntries
  import opened FsState
  import opened FsInvariant
  import opened FsTables
  import opened FsCreate
  import opened FsRemove
  import opened FsRuns
  import opened FsStore
  import opened FsReferences
  import opened FsTheorems

  /** The new file's state once it is closed, in terms of the state before it was made. */
  ghost predicate MadeAndClosed(fs: Fs, fs2: Fs, name: seq<byte>, nr: nat, s: nat, p: nat)
    requires Shape(fs) && Shape(fs2)
  {
    && CanCreate(fs, name, nr, s, p) && 1 + FILE_SECTS * s + FILE_SECTS <= |fs.smapBits| && FindUsed(fs.table, nr, NR_INODE) < 0
    && fs2.nSmap == fs.nSmap && fs2.data == fs.data && fs2.filp == fs.filp
    && fs2.imapBits == fs.imapBits[nr := true]
    && fs2.smapBits == SetRange(fs.smapBits, 1 + FILE_SECTS * s, FILE_SECTS, true)
    && fs2.inodes[nr - 1] == NewInode(fs.nSmap, 1 + FILE_SECTS * s)
    && fs2.dir == fs.dir[FirstUnused(fs.dir, DirSize(fs.table) / 16) := Entry(nr, Padded(name))]
    && DirSize(fs2.table) == GrownSize(fs.dir, DirSize(fs.table))
    && (forall i | 0 <= i < NR_INODES && i != ROOT_INODE - 1 && i != nr - 1 :: fs2.inodes[i] == fs.inodes[i])
    && (forall d | 0 <= d < NR_FILE_DESC :: fs2.fdt[d].slot == fs.fdt[d].slot)
    && fs2.table[p].cnt == 0 && fs2.table[ROOT_SLOT].cnt == fs.table[ROOT_SLOT].cnt
    && forall q | 0 < q < NR_INODE && q != p :: fs2.table[q] == fs.table[q]
  }

  /** Open with O_CREAT spelled out. */
  lemma MakeStep(fs: Fs, caller: nat, path: seq<byte>, flags: nat)
    requires Inv(fs) && Shape(fs) && Legal(fs, Open(caller, path, flags)) && CreatesNew(fs, path, flags)
    requires Step(fs, Open(caller, path, flags)).1.Fd?
    ensures HasRoom(fs) && Lookup(fs, path) < MAP_BITS && NameFits(fs, StripPath(path).name)
    ensures Step(fs, Open(caller, path, flags)) == OpenFile(fs, caller, path, flags)
    ensures CreateFile(fs, StripPath(path).name).1.At? ==>
              CreatedAs(fs, StripPath(path).name, FirstFree(fs.imapBits), FirstFree(fs.smapBits) / FILE_SECTS,
                        CreateFile(fs, StripPath(path).name).1.p)
  {
    LookupInUse(fs, path);
    RoomLeftFacts(fs);
    CreateFacts(fs, StripPath(path).name, path);
    hide Inv, Lookup, OpenFile, CreatedAs, FirstFree, HasRoom, RoomLeft;
  }

  /** The state after the file has been made and opened as file fd. */
  ghost predicate Made(fs: Fs, fs1: Fs, caller: nat, fd: nat, flags: nat, name: seq<byte>, nr: nat, s: nat, p: nat)
    requires Shape(fs)
  {
    && CanCreate(fs, name, nr, s, p) && 1 + FILE_SECTS * s + FILE_SECTS <= |fs.smapBits| && FindUsed(fs.table, nr, NR_INODE) < 0
    && fs.table[ROOT_SLOT].num == ROOT_INODE
    && caller < |fs.filp| && fd < NR_FILES && fs.filp[caller][fd].None? && FreeDesc(fs.fdt, NR_FILE_DESC) < NR_FILE_DESC
    && fs1 == Attach(Created(fs, fs.table, name, nr, 1 + FILE_SECTS * s, p), caller, fd, FreeDesc(fs.fdt, NR_FILE_DESC), flags, p)
  }

  lemma MadeBy(fs: Fs, caller: nat, path: seq<byte>, flags: nat, name: seq<byte>, nr: nat, s: nat)
    requires Inv(fs) && Shape(fs) && caller < |fs.filp| && Lookup(fs, path) < MAP_BITS && CreatesNew(fs, path, flags) && HasRoom(fs)
    requires StripPath(path) == Name(name) && NameFits(fs, name) && OpenFile(fs, caller, path, flags).1.Fd?
    requires nr == FirstFree(fs.imapBits) && CreateFile(fs, name).1.At? ==> CreatedAs(fs, name, nr, s, CreateFile(fs, name).1.p)
    requires nr == FirstFree(fs.imapBits)
    ensures CreateFile(fs, name).1.At?
    ensures var r := OpenFile(fs, caller, path, flags);
            Made(fs, r.0, caller, r.1.fd, flags, name, nr, s, CreateFile(fs, name).1.p)
  {
    RootFacts(fs);
    OpenedNew(fs, caller, path, flags);
    hide Inv, Lookup, FirstFree, Created, FindUsed, OpenFile, CreateFile, CanCreate, FreeDesc, Attach, StripPath;
  }

  lemma Make(fs: Fs, caller: nat, path: seq<byte>, flags: nat, name: seq<byte>)
    requires Inv(fs) && Shape(fs) && Legal(fs, Open(caller, path, flags)) && CreatesNew(fs, path, flags)
    requires Step(fs, Open(caller, path, flags)).1.Fd? && StripPath(path) == Name(name)
    ensures HasRoom(fs) && NameFits(fs, name) && CreateFile(fs, name).1.At?
    ensures var r := Step(fs, Open(caller, path, flags));
            && Inv(r.0) && Shape(r.0)
            && Made(fs, r.0, caller, r.1.fd, flags, name,
                    FirstFree(fs.imapBits), FirstFree(fs.smapBits) / FILE_SECTS, CreateFile(fs, name).1.p)
  {
    MakeStep(fs, caller, path, flags);
    StepInv(fs, Open(caller, path, flags));
    hide Inv, Lookup, FirstFree, OpenFile, CreateFile, Made, CreatedAs, HasRoom, Step;
    MadeBy(fs, caller, path, flags, name, FirstFree(fs.imapBits), FirstFree(fs.smapBits) / FILE_SECTS);
  }

  /** Closing it again. */
  lemma CloseMade(fs: Fs, fs1: Fs, caller: nat, fd: nat, flags: nat, name: seq<byte>, nr: nat, s: nat, p: nat)
    requires Inv(fs) && Shape(fs) && Inv(fs1) && Shape(fs1) && Made(fs, fs1, caller, fd, flags, name, nr, s, p)
    ensures Legal(fs1, Close(caller, fd))
    ensures var fs2 := Step(fs1, Close(caller, fd)).0;
            Inv(fs2) && Shape(fs2) && MadeAndClosed(fs, fs2, name, nr, s, p)
  {
    hide Inv, FirstFree, Created, FindUsed, MadeAndClosed, FreeDesc, Unused, Taken;
    assert ValidFd(fs1, caller, fd);
    OpenFacts(fs1, caller, fd);
    StepInv(fs1, Close(caller, fd));
    ClosedAgain(fs, Created(fs, fs.table, name, nr, 1 + FILE_SECTS * s, p), name, nr, s, p, caller, fd,
                FreeDesc(fs.fdt, NR_FILE_DESC), flags);
  }

  lemma OpenedNew(fs: Fs, caller: nat, path: seq<byte>, flags: nat)
    requires Inv(fs) && Shape(fs) && caller < |fs.filp| && Lookup(fs, path) < MAP_BITS && CreatesNew(fs, path, flags) && HasRoom(fs)
    requires NameFits(fs, StripPath(path).name) && OpenFile(fs, caller, path, flags).1.Fd?
    ensures var r, c := OpenFile(fs, caller, path, flags), CreateFile(fs, StripPath(path).name);
            && c.1.At? && r.1.fd < NR_FILES && fs.filp[caller][r.1.fd].None?
            && FreeDesc(fs.fdt, NR_FILE_DESC) < NR_FILE_DESC
            && c.0.filp == fs.filp && c.0.fdt == fs.fdt
            && r.0 == Attach(c.0, caller, r.1.fd, FreeDesc(fs.fdt, NR_FILE_DESC), flags, c.1.p)
  {
    hide Inv, Lookup, Created, FirstFree, FindUsed;
  }

  lemma ClosedAgain(fs: Fs, fs1: Fs, name: seq<byte>, nr: nat, s: nat, p: nat, caller: nat, fd: nat, d: nat, flags: nat)
    requires Inv(fs) && Shape(fs) && CanCreate(fs, name, nr, s, p) && 1 + FILE_SECTS * s + FILE_SECTS <= |fs.smapBits|
    requires fs.table[ROOT_SLOT].num == ROOT_INODE && FindUsed(fs.table, nr, NR_INODE) < 0
    requires fs1 == Created(fs, fs.table, name, nr, 1 + FILE_SECTS * s, p)
    requires caller < |fs.filp| && fd < NR_FILES && fs.filp[caller][fd].None? && d < NR_FILE_DESC && fs.fdt[d].slot.None?
    requires var fs' := Attach(fs1, caller, fd, d, flags, p); IsOpen(fs', caller, fd) && Shape(CloseFile(fs', caller, fd))
    ensures MadeAndClosed(fs, CloseFile(Attach(fs1, caller, fd, d, flags, p), caller, fd), name, nr, s, p)
  {
    NewEntry(fs.dir, DirSize(fs.table), nr, name);
    hide Inv, FindUsed, AddName, FirstUnused, GrownSize, SetRange, Padded, Taken, Unused;
    var fs2 := CloseFile(Attach(fs1, caller, fd, d, flags, p), caller, fd);
    assert fs2.filp[caller] == fs.filp[caller];
    assert fs2.filp == fs.filp;
  }

  /** Where the new entry is. */
  lemma PlaceFacts(fs: Fs, nr: nat)
    requires Inv(fs) && Shape(fs) && 0 < nr < MAP_BITS && !fs.imapBits[nr]
    ensures !InDir(fs.dir, nr)
    ensures var e := FirstUnused(fs.dir, DirSize(fs.table) / 16);
            && e < |fs.dir| && fs.dir[e] == NO_ENTRY && e < GrownSize(fs.dir, DirSize(fs.table)) / 16
            && forall i | 0 <= i < e :: fs.dir[i].nr != 0
  {
    hide InodesOk, ExtentsDisjoint, SectorMapExact, Counted, DescsOk, FilesOk, Coherent;
  }

  lemma GoodStripped(path: seq<byte>)
    requires ValidPath(path) && StripPath(path).Name? && StripPath(path).name != []
    ensures GoodName(StripPath(path).name) && path != [SLASH]
  {
    assert StripPath([SLASH]) == Name([]);
  }

  /** The path then stands for the new inode, and the request to remove it succeeds. */
  lemma CanBeRemovedAgain(fs: Fs, fs2: Fs, path: seq<byte>, name: seq<byte>, nr: nat, s: nat, p: nat)
    requires Inv(fs) && Shape(fs) && Inv(fs2) && Shape(fs2) && ValidPath(path) && StripPath(path) == Name(name)
    requires MadeAndClosed(fs, fs2, name, nr, s, p)
    ensures Lookup(fs2, path) == nr && EntryOf(fs2, nr) == FirstUnused(fs.dir, DirSize(fs.table) / 16)
    ensures Legal(fs2, Unlink(path)) && Step(fs2, Unlink(path)).1 == Done
  {
    PlaceFacts(fs, nr);
    GoodStripped(path);
    RootFacts(fs);
    RootFacts(fs2);
    var e := FirstUnused(fs.dir, DirSize(fs.table) / 16);
    hide Inv, FindUsed, FindFree, SetRange, Padded, Taken, Unused, Lookup, FirstUnused, GrownSize, StripPath, Legal, Step, InDir, EntryOf;
    LookupOfName(fs2, path);
    assert Names(fs2.dir, e, name);
    LookupEntry(fs2, name, e);
    EntryAt(fs, fs2, nr, e);
    LegalAgain(fs, fs2, path, e);
    NotUsedAgain(fs.table, fs2.table, nr, p);
    UnlinkSucceeds(fs2, path);
    StepUnlink(fs2, path);
  }

  lemma EntryAt(fs: Fs, fs2: Fs, nr: nat, e: nat)
    requires Inv(fs) && Shape(fs) && Shape(fs2) && e < |fs.dir| && nr > 0 && !InDir(fs.dir, nr)
    requires fs2.dir[e].nr == nr && fs2.dir == fs.dir[e := fs2.dir[e]] && e < DirSize(fs2.table) / 16
    ensures EntryOf(fs2, nr) == e
  {
    hide Inv;
    FirstWithBelow(fs2.dir, nr, e, DirSize(fs2.table) / 16);
  }

  lemma LegalAgain(fs: Fs, fs2: Fs, path: seq<byte>, e: nat)
    requires Inv(fs) && Shape(fs) && Inv(fs2) && Shape(fs2) && ValidPath(path)
    requires e == FirstUnused(fs.dir, DirSize(fs.table) / 16) < |fs.dir| && EntryOf(fs2, Lookup(fs2, path)) == e
    requires fs2.dir == fs.dir[e := fs2.dir[e]]
    ensures Legal(fs2, Unlink(path))
  {
    hide Inv, Lookup, Get, EntryOf;
    assert Compact(fs2.dir, e);
  }

  lemma NotUsedAgain(t: seq<Slot>, t2: seq<Slot>, nr: nat, p: nat)
    requires |t| == |t2| == NR_INODE && FindUsed(t, nr, NR_INODE) < 0 && p < NR_INODE && t2[p].cnt == 0
    requires t2[ROOT_SLOT].cnt == t[ROOT_SLOT].cnt && t2[ROOT_SLOT].num == t[ROOT_SLOT].num
    requires forall q | 0 < q < NR_INODE && q != p :: t2[q] == t[q]
    ensures FindUsed(t2, nr, NR_INODE) < 0 && FindFree(t2, NR_INODE) >= 0
  {
    assert forall q | 0 <= q < NR_INODE && t2[q].cnt > 0 :: t2[q].num == t[q].num && t[q].cnt > 0;
    hide FindUsed, FindFree;
    assert t2[p].cnt == 0;
  }

  /** Both maps, the entries and the data after the file is removed. */
  lemma Restored(fs: Fs, fs2: Fs, path: seq<byte>, name: seq<byte>, nr: nat, s: nat, p: nat)
    requires Inv(fs) && Shape(fs) && Inv(fs2) && Shape(fs2) && MadeAndClosed(fs, fs2, name, nr, s, p)
    requires Legal(fs2, Unlink(path)) && Step(fs2, Unlink(path)).1 == Done
    requires Lookup(fs2, path) == nr && EntryOf(fs2, nr) == FirstUnused(fs.dir, DirSize(fs.table) / 16)
    ensures var fs3 := Step(fs2, Unlink(path)).0;
            && fs3.imapBits == fs.imapBits && fs3.smapBits == fs.smapBits && fs3.dir == fs.dir && fs3.data == fs.data
            && fs3.filp == fs.filp
  {
    PlaceFacts(fs, nr);
    StepUnlink(fs2, path);
    LookupInUse(fs2, path);
    hide Inv, Lookup, FindUsed, FindFree, SetRange, Padded, Taken, Unused, FirstUnused, GrownSize, Compact, EntryOf, Legal, Step;
    hide Released, Unnamed, Get, CanCreate;
    if Get(fs2.table, fs2.inodes, nr).1.At? {
      GetInv(fs2, nr);
      var g := Get(fs2.table, fs2.inodes, nr);
      ReleasedAgain(fs, fs2, g.0, name, nr, s, p, g.1.p, EntryOf(fs2, nr));
    }
  }

  lemma ReleasedAgain(fs: Fs, fs2: Fs, t: seq<Slot>, name: seq<byte>, nr: nat, s: nat, p: nat, q: nat, e: nat)
    requires Inv(fs) && Shape(fs) && Shape(fs2) && MadeAndClosed(fs, fs2, name, nr, s, p)
    requires |t| == |fs2.table| && q < |t| && 0 < nr < MAP_BITS && Mapped(fs2, t, q) && t[q].ino == fs2.inodes[nr - 1]
    requires e == FirstUnused(fs.dir, DirSize(fs.table) / 16) < DirSize(fs2.table) / 16
    ensures var fs3 := Unnamed(Released(fs2, t, nr, q), e);
            && fs3.imapBits == fs.imapBits && fs3.smapBits == fs.smapBits && fs3.dir == fs.dir && fs3.data == fs.data
            && fs3.filp == fs.filp
  {
    PlaceFacts(fs, nr);
    SectorsAgain(fs, s);
    hide Inv, FindUsed, SetRange, Padded, Taken, Unused, FirstUnused, GrownSize, ShrunkSize;
    assert fs.imapBits[nr := true][nr := false] == fs.imapBits;
    assert fs2.dir[e := NO_ENTRY] == fs.dir;
  }

  lemma SectorsAgain(fs: Fs, s: nat)
    requires Inv(fs) && Shape(fs) && s < Blocks(fs.nSmap) && !Taken(fs.nSmap, fs.imapBits, fs.inodes, s)
    requires 1 + FILE_SECTS * s + FILE_SECTS <= |fs.smapBits|
    ensures var f := 1 + FILE_SECTS * s;
            SetRange(SetRange(fs.smapBits, f, FILE_SECTS, true), f, FILE_SECTS, false) == fs.smapBits
  {
    hide Taken;
    forall b | 1 + FILE_SECTS * s <= b < 1 + FILE_SECTS * s + FILE_SECTS ensures !fs.smapBits[b] {
      assert (b - 1) / FILE_SECTS == s;
    }
  }

  /** What every name stands for, through the three requests. */
  lemma ViewsRestored(fs: Fs, caller: nat, path: seq<byte>, flags: nat, other: seq<byte>)
    requires Inv(fs) && Shape(fs) && Legal(fs, Open(caller, path, flags)) && CreatesNew(fs, path, flags)
    requires Step(fs, Open(caller, path, flags)).1.Fd? && GoodName(other)
    requires var r := Step(fs, Open(caller, path, flags));
             && Inv(r.0) && Shape(r.0) && Legal(r.0, Close(caller, r.1.fd))
             && var fs2 := Step(r.0, Close(caller, r.1.fd)).0;
             && Inv(fs2) && Shape(fs2) && Legal(fs2, Unlink(path)) && Step(fs2, Unlink(path)).1 == Done
             && Inv(Step(fs2, Unlink(path)).0) && Shape(Step(fs2, Unlink(path)).0)
    ensures ViewOf(Step(Step(Step(fs, Open(caller, path, flags)).0, Close(caller, Step(fs, Open(caller, path, flags)).1.fd)).0,
                        Unlink(path)).0, other) == ViewOf(fs, other)
  {
    hide Inv, Step, Lookup;
    var r := Step(fs, Open(caller, path, flags));
    var fs2 := Step(r.0, Close(caller, r.1.fd)).0;
    StepView(fs, Open(caller, path, flags), other);
    StepView(r.0, Close(caller, r.1.fd), other);
    StepView(fs2, Unlink(path), other);
    LookupOfName(fs, path);
  }

  /** The three requests follow one another, and the last one succeeds. */
  ghost predicate MakeRemove(fs: Fs, caller: nat, path: seq<byte>, flags: nat)
    requires Inv(fs) && Shape(fs) && Legal(fs, Open(caller, path, flags))
  {
    var r := Step(fs, Open(caller, path, flags));
    && r.1.Fd? && Inv(r.0) && Shape(r.0) && Legal(r.0, Close(caller, r.1.fd))
    && var fs2 := Step(r.0, Close(caller, r.1.fd)).0;
    && Inv(fs2) && Shape(fs2) && Legal(fs2, Unlink(path)) && Step(fs2, Unlink(path)).1 == Done
    && Inv(Step(fs2, Unlink(path)).0) && Shape(Step(fs2, Unlink(path)).0)
  }

  ghost function AfterMakeRemove(fs: Fs, caller: nat, path: seq<byte>, flags: nat): Fs
    requires Inv(fs) && Shape(fs) && Legal(fs, Open(caller, path, flags)) && MakeRemove(fs, caller, path, flags)
  {
    var r := Step(fs, Open(caller, path, flags));
    Step(Step(r.0, Close(caller, r.1.fd)).0, Unlink(path)).0
  }

  /** Making a file, closing it and removing it succeed, restore both maps, every entry of the
      directory, all data and the open files, and every name stands for what it stood for
      before. */
  lemma RemoveUndoesMake(fs: Fs, caller: nat, path: seq<byte>, flags: nat)
    requires Inv(fs) && Shape(fs) && Legal(fs, Open(caller, path, flags)) && CreatesNew(fs, path, flags)
    requires Step(fs, Open(caller, path, flags)).1.Fd?
    ensures MakeRemove(fs, caller, path, flags)
    ensures var fs3 := AfterMakeRemove(fs, caller, path, flags);
            && fs3.imapBits == fs.imapBits && fs3.smapBits == fs.smapBits && fs3.dir == fs.dir && fs3.data == fs.data
            && fs3.filp == fs.filp && Inv(fs3) && Shape(fs3)
            && forall name | GoodName(name) :: ViewOf(fs3, name) == ViewOf(fs, name)
  {
    var made := StripPath(path).name;
    Make(fs, caller, path, flags, made);
    hide Inv, Step, Legal, Lookup, ViewOf, MadeAndClosed, Made, FirstFree, CreateFile, GoodName, HasRoom;
    var r := Step(fs, Open(caller, path, flags));
    var nr, s, p := FirstFree(fs.imapBits), FirstFree(fs.smapBits) / FILE_SECTS, CreateFile(fs, made).1.p;
    CloseMade(fs, r.0, caller, r.1.fd, flags, made, nr, s, p);
    var fs2 := Step(r.0, Close(caller, r.1.fd)).0;
    CanBeRemovedAgain(fs, fs2, path, made, nr, s, p);
    StepInv(fs2, Unlink(path));
    Restored(fs, fs2, path, made, nr, s, p);
    forall name | GoodName(name)
      ensures ViewOf(Step(fs2, Unlink(path)).0, name) == ViewOf(fs, name)
    {
      ViewsRestored(fs, caller, path, flags, name);
    }
  }
}
