/** Every request keeps the invariant, and so does every run of requests. */
module FsRuns {
  import opened Options
  import opened FsBits
  import opened FsMaps
  import opened FsInodes
  import opened FsDirectory
  import opened FsEntries
  import opened FsTransfer
  import opened FsState
  import opened FsInvariant
  import opened FsTables
  import opened FsCreate
  import opened FsRemove

  // ---------------------------------------------------------------- looking a path up

  /** What a path stands for is in use. */
  lemma LookupInUse(fs: Fs, path: seq<byte>)
    requires Inv(fs) && Shape(fs)
    ensures Lookup(fs, path) < MAP_BITS
    ensures Lookup(fs, path) != 0 ==> fs.imapBits[Lookup(fs, path)]
  {
    RootFacts(fs);
    hide InodesOk, ExtentsDisjoint, SectorMapExact, Counted, DescsOk, FilesOk, Coherent, Distinct, UnusedZero, EmptyFrom, FindName;
    var nr := Lookup(fs, path);
    match StripPath(path)
    case BadPath =>
    case Name(name) =>
      if name != [] {
        var e := FindName(fs.dir, Padded(name), SearchEnd(DirSize(fs.table)));
        if e >= 0 && nr != 0 {
          assert fs.dir[e].nr == nr;
          assert InDir(fs.dir, nr);
        }
      }
  }

  /** A search looks at all used entries. */
  lemma SearchCovers(dir: seq<Entry>, size: nat, e: nat)
    requires DirOk(dir, size) && e < |dir| && dir[e].nr != 0
    ensures e < size / 16 <= SearchEnd(size) <= |dir|
  {}

  lemma NamedUsed(dir: seq<Entry>, name: Name12)
    requires UnusedZero(dir) && name != NO_ENTRY.name
    ensures forall e | 0 <= e < |dir| :: dir[e].name == name ==> dir[e].nr != 0
  {}

  /** A path that stands for nothing has an unused name. */
  lemma LookupUnused(fs: Fs, path: seq<byte>)
    requires Inv(fs) && Shape(fs) && 0 !in path && StripPath(path).Name? && Lookup(fs, path) == 0
    ensures StripPath(path).name != [] && Unused(fs.dir, StripPath(path).name)
  {
    RootFacts(fs);
    hide InodesOk, ExtentsDisjoint, SectorMapExact, Counted, DescsOk, FilesOk, Coherent, FindName, Padded, InodeMapExact;
    var name := StripPath(path).name;
    assert name != [];
    PaddedNotEmpty(name);
    var f := FindName(fs.dir, Padded(name), SearchEnd(DirSize(fs.table)));
    NamedUsed(fs.dir, Padded(name));
    forall e | 0 <= e < |fs.dir| && fs.dir[e].nr != 0 ensures fs.dir[e].name != Padded(name) {
      SearchCovers(fs.dir, DirSize(fs.table), e);
    }
  }

  // ---------------------------------------------------------------- what a request asks of its caller

  /** A free inode number is left, and a free block. */
  ghost predicate RoomLeft(fs: Fs)
    requires Shape(fs)
  {
    FirstFree(fs.imapBits) < MAP_BITS && Uniform(fs.smapBits, FirstFree(fs.smapBits), FILE_SECTS, false)
  }

  lemma RoomLeftFacts(fs: Fs)
    requires Inv(fs) && Shape(fs) && RoomLeft(fs)
    ensures HasRoom(fs) && !fs.imapBits[FirstFree(fs.imapBits)]
    ensures var f := FirstFree(fs.smapBits);
            && f % FILE_SECTS == 1 && 0 < f / FILE_SECTS < Blocks(fs.nSmap)
            && !Taken(fs.nSmap, fs.imapBits, fs.inodes, f / FILE_SECTS)
  {
    RootFacts(fs);
    var nr, f := FirstFree(fs.imapBits), FirstFree(fs.smapBits);
    SomeBitFree(fs.nSmap, fs.smapBits, fs.imapBits, fs.inodes);
    FreeBlock(fs.nSmap, fs.smapBits, fs.imapBits, fs.inodes, f);
    RootBlock(fs.nSmap, fs.imapBits, fs.inodes, |fs.data|);
    assert (f - 1) / FILE_SECTS == f / FILE_SECTS;
    NotInTable(fs.table, fs.imapBits, fs.inodes, nr);
  }

  lemma NotInTable(table: seq<Slot>, bits: seq<bool>, inodes: seq<Inode>, nr: nat)
    requires Coherent(table, bits, inodes) && nr < |bits| && !bits[nr]
    ensures FindUsed(table, nr, |table|) < 0
  {
    var p := FindUsed(table, nr, |table|);
    assert p >= 0 ==> SlotOk(table[p], bits, inodes);
  }

  /** The request removes a file. */
  ghost predicate Removes(fs: Fs, path: seq<byte>)
    requires Shape(fs)
  {
    var nr := Lookup(fs, path);
    && path != [SLASH] && 0 < nr <= NR_INODES && StripPath(path).Name?
    && var g := Get(fs.table, fs.inodes, nr);
    g.1.At? && Removable(g.0, g.1.p)
  }

  ghost predicate ValidFd(fs: Fs, caller: nat, fd: nat) {
    caller < |fs.filp| && fd < |fs.filp[caller]| && fs.filp[caller][fd].Some?
  }

  /** A path as a request carries it. */
  ghost predicate ValidPath(path: seq<byte>) { 0 !in path && |path| < 128 }

  /** The requests the invariant is kept by. A new name fits into the directory, and there is room
      for a new file; what is read or written is a regular file, and lies within its
      extent, which exists on disk; when the last entry of the directory is removed, no entry
      before it is unused while one behind that is in use. */
  ghost predicate Legal(fs: Fs, r: Request)
    requires Inv(fs) && Shape(fs)
  {
    match r
    case Open(caller, path, flags) =>
      && caller < |fs.filp| && ValidPath(path) && (Creates(flags) || ReadsAndWrites(flags))
      && (CreatesNew(fs, path, flags) ==> NameFits(fs, StripPath(path).name) && RoomLeft(fs))
    case Close(caller, fd) => ValidFd(fs, caller, fd)
    case Read(caller, fd, len) =>
      && ValidFd(fs, caller, fd) && IsOpen(fs, caller, fd)
      && (ReadsAndWrites(DescOf(fs, caller, fd).mode) ==>
            InExtent(fs, caller, fd, ReadCount(fs, caller, fd, len)))
    case Write(caller, fd, bytes) =>
      && ValidFd(fs, caller, fd) && IsOpen(fs, caller, fd)
      && (ReadsAndWrites(DescOf(fs, caller, fd).mode) ==> InExtent(fs, caller, fd, |bytes|))
    case Unlink(path) =>
      && ValidPath(path)
      && (Removes(fs, path) && EntryOf(fs, Lookup(fs, path)) + 1 == DirSize(fs.table) / 16 ==>
            Compact(fs.dir, EntryOf(fs, Lookup(fs, path))))
  }

  /** A valid descriptor is open and its inode is in use. */
  lemma OpenFacts(fs: Fs, caller: nat, fd: nat)
    requires Inv(fs) && Shape(fs) && ValidFd(fs, caller, fd)
    ensures IsOpen(fs, caller, fd)
    ensures var x := SlotOf(fs, caller, fd);
            0 < x.num < MAP_BITS && fs.imapBits[x.num] && x.ino == fs.inodes[x.num - 1] && InodeOk(fs.nSmap, x.num, x.ino, |fs.data|)
  {
    hide DirOk, InodeMapExact, ExtentsDisjoint, SectorMapExact, Counted, InodeOk;
    var d := fs.filp[caller][fd].value;
    assert Holds(fs.filp, caller, fd, d);
    assert DescOk(fs.fdt[d], fs.table);
    assert SlotOk(fs.table[fs.fdt[d].slot.value], fs.imapBits, fs.inodes);
  }

  /** An unlink request finds the maps and the directory as it relies on. */
  lemma UnlinkConsistent(fs: Fs, path: seq<byte>)
    requires Inv(fs) && Shape(fs)
    ensures Consistent(fs, path)
  {
    hide InodeOk, Inv, Get, Lookup;
    LookupInUse(fs, path);
    var nr := Lookup(fs, path);
    if nr != 0 && Get(fs.table, fs.inodes, nr).1.At? {
      var g := Get(fs.table, fs.inodes, nr);
      GetInv(fs, nr);
      RootFacts(fs.(table := g.0));
      RootFacts(fs);
      GetGot(fs.table, fs.inodes, nr);
      HasEntry(fs, nr);
      if Removable(g.0, g.1.p) {
        RegularMapped(fs.(table := g.0), nr, g.1.p);
      }
    }
  }

  lemma RegularMapped(fs: Fs, nr: nat, p: nat)
    requires Inv(fs) && Shape(fs) && 0 < nr < MAP_BITS && fs.imapBits[nr] && p < |fs.table|
    requires fs.table[p].ino == fs.inodes[nr - 1] && fs.table[p].ino.mode == I_REGULAR
    ensures Mapped(fs, fs.table, p)
  {
    var s := BlockOf(fs.nSmap, fs.imapBits, fs.inodes, |fs.data|, nr);
    RootFacts(fs);
  }

  // ---------------------------------------------------------------- one step

  /** What an open request asks of its caller: a path, one of the two flags, and room if it makes
      a new file. */
  ghost predicate CanOpen(fs: Fs, caller: nat, path: seq<byte>, flags: nat)
    requires Shape(fs)
  {
    && caller < |fs.filp| && ValidPath(path) && (Creates(flags) || ReadsAndWrites(flags))
    && (CreatesNew(fs, path, flags) ==> RoomLeft(fs))
  }

  ghost function Opened(fs: Fs, caller: nat, path: seq<byte>, flags: nat): (r: (Fs, Reply))
    requires Inv(fs) && Shape(fs) && CanOpen(fs, caller, path, flags)
    ensures Lookup(fs, path) < MAP_BITS && (CreatesNew(fs, path, flags) ==> HasRoom(fs))
    ensures r == OpenFile(fs, caller, path, flags)
  {
    LookupInUse(fs, path);
    if CreatesNew(fs, path, flags) then
      RoomLeftFacts(fs);
      OpenFile(fs, caller, path, flags)
    else OpenFile(fs, caller, path, flags)
  }

  ghost function Unlinked(fs: Fs, path: seq<byte>): (r: (Fs, Reply))
    requires Inv(fs) && Shape(fs)
    ensures Consistent(fs, path) && r == UnlinkFile(fs, path)
  {
    UnlinkConsistent(fs, path);
    UnlinkFile(fs, path)
  }

  ghost function Step(fs: Fs, r: Request): (Fs, Reply)
    requires Inv(fs) && Shape(fs) && Legal(fs, r)
  {
    match r
    case Open(caller, path, flags) => Opened(fs, caller, path, flags)
    case Close(caller, fd) =>
      OpenFacts(fs, caller, fd);
      (CloseFile(fs, caller, fd), Done)
    case Read(caller, fd, len) =>
      OpenFacts(fs, caller, fd);
      ReadFile(fs, caller, fd, len)
    case Write(caller, fd, bytes) =>
      OpenFacts(fs, caller, fd);
      WriteFile(fs, caller, fd, bytes)
    case Unlink(path) => Unlinked(fs, path)
  }

  lemma StepUnlink(fs: Fs, path: seq<byte>)
    requires Inv(fs) && Shape(fs) && Legal(fs, Unlink(path))
    ensures Consistent(fs, path) && ValidPath(path) && Step(fs, Unlink(path)) == UnlinkFile(fs, path)
  {
    UnlinkConsistent(fs, path);
    hide Inv, Shape, Consistent, UnlinkFile, Compact, Removes, EntryOf;
  }

  // ---------------------------------------------------------------- opening

  lemma OpenInodeInv(fs: Fs, path: seq<byte>, flags: nat)
    requires Inv(fs) && Shape(fs) && ValidPath(path) && Lookup(fs, path) < MAP_BITS
    requires CreatesNew(fs, path, flags) ==> NameFits(fs, StripPath(path).name) && RoomLeft(fs) && HasRoom(fs)
    ensures var r := OpenInode(fs, path, flags);
            && Inv(r.0) && r.0.fdt == fs.fdt && r.0.filp == fs.filp
            && (r.1.At? ==> r.1.p < |r.0.table| && References(r.0.fdt, r.1.p) < r.0.table[r.1.p].cnt)
  {
    hide Inv, Get, Lookup, Created, References;
    if CreatesNew(fs, path, flags) {
      CreateInv(fs, StripPath(path).name, path);
    } else if !Creates(flags) && StripPath(path).Name? {
      LookupInUse(fs, path);
      var nr := Lookup(fs, path);
      if nr != 0 && Get(fs.table, fs.inodes, nr).1.At? {
        GetInv(fs, nr);
      }
      GetNothing(fs.table, fs.inodes, nr);
    }
  }

  lemma GetNothing(table: seq<Slot>, inodes: seq<Inode>, nr: nat)
    requires nr <= |inodes|
    ensures nr == 0 || !Get(table, inodes, nr).1.At? ==> Get(table, inodes, nr).0 == table && !Get(table, inodes, nr).1.At?
  {}

  /** Making a file, spelled out: the number, the block and the slot it gets. */
  ghost predicate CreatedAs(fs: Fs, name: seq<byte>, nr: nat, s: nat, p: nat)
    requires Shape(fs) && |name| <= 12 && HasRoom(fs)
  {
    && CanCreate(fs, name, nr, s, p) && 1 + FILE_SECTS * s + FILE_SECTS <= |fs.smapBits|
    && CreateFile(fs, name) == (Created(fs, fs.table, name, nr, 1 + FILE_SECTS * s, p), At(p))
  }

  lemma CreateFacts(fs: Fs, name: seq<byte>, path: seq<byte>)
    requires Inv(fs) && Shape(fs) && ValidPath(path) && StripPath(path) == Name(name) && Lookup(fs, path) == 0
    requires NameFits(fs, name) && RoomLeft(fs) && HasRoom(fs)
    ensures if CreateFile(fs, name).1.At?
            then CreatedAs(fs, name, FirstFree(fs.imapBits), FirstFree(fs.smapBits) / FILE_SECTS, CreateFile(fs, name).1.p)
            else CreateFile(fs, name).0 == fs
  {
    hide Inv, References, Lookup, Get, Created, FindUsed, Taken, FirstFree, Unused, Uniform;
    LookupUnused(fs, path);
    RoomLeftFacts(fs);
    RootFacts(fs);
    var nr, f := FirstFree(fs.imapBits), FirstFree(fs.smapBits);
    assert f == 1 + FILE_SECTS * (f / FILE_SECTS);
    if Get(fs.table, fs.inodes, nr).1.At? {
      var p := Get(fs.table, fs.inodes, nr).1.p;
      NewSlotOverwritten(fs.table, fs.inodes, nr);
      assert nr != 1;
      CreatedSame(fs, name, nr, f, p, Get(fs.table, fs.inodes, nr).0[p]);
    }
  }

  lemma CreateInv(fs: Fs, name: seq<byte>, path: seq<byte>)
    requires Inv(fs) && Shape(fs) && ValidPath(path) && StripPath(path) == Name(name) && Lookup(fs, path) == 0
    requires NameFits(fs, name) && RoomLeft(fs) && HasRoom(fs)
    ensures var r := CreateFile(fs, name);
            && Inv(r.0) && r.0.fdt == fs.fdt && r.0.filp == fs.filp
            && (r.1.At? ==> r.1.p < |r.0.table| && References(r.0.fdt, r.1.p) < r.0.table[r.1.p].cnt)
  {
    hide Inv, References, Lookup, Created, CreateFile, FirstFree, RoomLeft, HasRoom, StripPath, ValidPath, Unused, Taken;
    CreateFacts(fs, name, path);
    RootFacts(fs);
    var r := CreateFile(fs, name);
    if r.1.At? {
      var nr, s := FirstFree(fs.imapBits), FirstFree(fs.smapBits) / FILE_SECTS;
      CreatedInv(fs, name, nr, s, r.1.p);
      assert r.0 == Created(fs, fs.table, name, nr, 1 + FILE_SECTS * s, r.1.p);
    }
  }

  lemma NewSlotOverwritten(table: seq<Slot>, inodes: seq<Inode>, nr: nat)
    requires 0 < nr <= |inodes| && FindUsed(table, nr, |table|) < 0 && Get(table, inodes, nr).1.At?
    ensures var g := Get(table, inodes, nr); table[g.1.p].cnt == 0 && g.0 == table[g.1.p := g.0[g.1.p]]
  {}

  /** A new inode overwrites what was loaded from disk for it. */
  lemma CreatedSame(fs: Fs, name: seq<byte>, nr: nat, f: nat, p: nat, x: Slot)
    requires Shape(fs) && |name| <= 12 && 0 < nr < |fs.imapBits| && f > 0 && 0 < p < |fs.table|
    requires f + FILE_SECTS <= |fs.smapBits|
    ensures Created(fs, fs.table[p := x], name, nr, f, p) == Created(fs, fs.table, name, nr, f, p)
  {
    hide SetRange, AddName, GrownSize, FirstUnused;
    assert fs.table[p := x][p := Slot(1, nr, NewInode(fs.nSmap, f))] == fs.table[p := Slot(1, nr, NewInode(fs.nSmap, f))];
  }

  lemma OpenInv(fs: Fs, caller: nat, path: seq<byte>, flags: nat)
    requires Inv(fs) && Shape(fs) && ValidPath(path) && caller < |fs.filp| && Lookup(fs, path) < MAP_BITS
    requires CreatesNew(fs, path, flags) ==> NameFits(fs, StripPath(path).name) && RoomLeft(fs) && HasRoom(fs)
    ensures Inv(OpenFile(fs, caller, path, flags).0)
  {
    hide Inv, References, OpenInode, Lookup;
    var fd, d := FreeFd(fs.filp[caller], NR_FILES), FreeDesc(fs.fdt, NR_FILE_DESC);
    OpenInodeInv(fs, path, flags);
    var r := OpenInode(fs, path, flags);
    if fd != NR_FILES && d != NR_FILE_DESC && r.1.At? {
      AttachInv(r.0, caller, fd, d, flags, r.1.p);
    }
  }

  /** The assertions on the kind of an opened inode hold: only the root is a directory, and what
      is neither that nor a terminal is a regular file. */
  lemma OpenedKind(fs: Fs, p: nat)
    requires Inv(fs) && Shape(fs) && p < NR_INODE && fs.table[p].cnt > 0
    ensures var x := fs.table[p];
            || (x.ino.mode == I_DIRECTORY && x.num == ROOT_INODE)
            || ((x.ino.mode == I_REGULAR || x.ino.mode == I_CHAR_SPECIAL) && x.num != ROOT_INODE)
  {
    assert SlotOk(fs.table[p], fs.imapBits, fs.inodes);
    assert InodeOk(fs.nSmap, fs.table[p].num, fs.table[p].ino, |fs.data|);
  }

  // ---------------------------------------------------------------- reading and writing

  lemma AdvanceTables(table: seq<Slot>, fdt: seq<Desc>, d: nat, p: nat, pos: nat)
    requires Counted(table, fdt) && DescsOk(table, fdt) && d < |fdt| && fdt[d].slot == Some(p) && p < |table|
    requires table[p].ino.mode == I_REGULAR
    ensures var x := table[p].ino.(size := if pos > table[p].ino.size then pos else table[p].ino.size);
            var t, fdt' := table[p := table[p].(ino := x)], fdt[d := fdt[d].(pos := pos)];
            Counted(t, fdt') && DescsOk(t, fdt')
  {
    hide Refs;
    var x := table[p].ino.(size := if pos > table[p].ino.size then pos else table[p].ino.size);
    var y := fdt[d].(pos := pos);
    var t, fdt' := table[p := table[p].(ino := x)], fdt[d := y];
    forall q | 0 <= q < |t| ensures References(fdt', q) <= t[q].cnt {
      RefsUpdate(fdt, d, y, q);
      assert References(fdt, q) <= table[q].cnt;
    }
    forall e | 0 <= e < |fdt'| ensures DescOk(fdt'[e], t) {
      assert DescOk(fdt[e], table);
    }
  }

  lemma AdvanceFiles(filp: seq<seq<Option<nat>>>, fdt: seq<Desc>, d: nat, pos: nat)
    requires FilesOk(filp, fdt) && d < |fdt|
    ensures FilesOk(filp, fdt[d := fdt[d].(pos := pos)])
  {}

  lemma GrownCoherent(table: seq<Slot>, bits: seq<bool>, inodes: seq<Inode>, p: nat, x: Inode)
    requires Coherent(table, bits, inodes) && 0 < p < |table| && table[p].cnt > 0
    requires |inodes| == NR_INODES && 0 < table[p].num <= NR_INODES
    ensures Coherent(table[p := table[p].(ino := x)], bits, inodes[table[p].num - 1 := x])
  {
    var t, inodes' := table[p := table[p].(ino := x)], inodes[table[p].num - 1 := x];
    forall q | 0 <= q < |t| ensures SlotOk(t[q], bits, inodes') {
      assert SlotOk(table[q], bits, inodes);
      assert q < p || q == p || p < q;
    }
  }

  lemma GrownInodes(nSmap: nat, smapBits: seq<bool>, bits: seq<bool>, inodes: seq<Inode>, dataSize: nat, nr: nat, size: nat)
    requires InodesOk(nSmap, bits, inodes, dataSize) && 0 < nr < MAP_BITS && bits[nr] && inodes[nr - 1].mode == I_REGULAR
    requires ExtentsDisjoint(nSmap, bits, inodes) && SectorMapExact(nSmap, smapBits, bits, inodes)
    requires size <= FILE_BYTES && (size > 0 ==> Base(nSmap, inodes[nr - 1]) + size <= dataSize)
    ensures var inodes' := inodes[nr - 1 := inodes[nr - 1].(size := size)];
            && InodesOk(nSmap, bits, inodes', dataSize)
            && ExtentsDisjoint(nSmap, bits, inodes') && SectorMapExact(nSmap, smapBits, bits, inodes')
  {
    hide ExtentsDisjoint, SectorMapExact;
    var x := inodes[nr - 1].(size := size);
    var inodes' := inodes[nr - 1 := x];
    assert InodeOk(nSmap, nr, inodes[nr - 1], dataSize);
    assert InodeOk(nSmap, nr, x, dataSize);
    ExtentsFrame(nSmap, smapBits, bits, inodes, inodes');
    hide InodeOk;
  }

  lemma DataIrrelevant(fs: Fs, data: seq<byte>)
    requires Inv(fs) && |data| == |fs.data|
    ensures Inv(fs.(data := data))
  {}

  /** Moving on within the extent keeps the invariant. */
  lemma AdvanceInv(fs: Fs, caller: nat, fd: nat, n: nat)
    requires Inv(fs) && Shape(fs) && ValidFd(fs, caller, fd) && IsOpen(fs, caller, fd) && InExtent(fs, caller, fd, n)
    requires 0 < SlotOf(fs, caller, fd).num < MAP_BITS
    ensures Inv(Advance(fs, caller, fd, n))
  {
    hide DirOk, InodeMapExact, InodesOk, ExtentsDisjoint, SectorMapExact, Counted, DescsOk, FilesOk, Coherent, References, InodeOk;
    OpenFacts(fs, caller, fd);
    RootFacts(fs);
    var d := fs.filp[caller][fd].value;
    var p := fs.fdt[d].slot.value;
    var pos := fs.fdt[d].pos + n;
    AdvanceTables(fs.table, fs.fdt, d, p, pos);
    AdvanceFiles(fs.filp, fs.fdt, d, pos);
    if pos > fs.table[p].ino.size {
      PosWithin(fs.table, fs.fdt, d);
      GrownCoherent(fs.table, fs.imapBits, fs.inodes, p, fs.table[p].ino.(size := pos));
      GrownInodes(fs.nSmap, fs.smapBits, fs.imapBits, fs.inodes, |fs.data|, fs.table[p].num, pos);
    } else {
      assert fs.table[p := fs.table[p].(ino := fs.table[p].ino.(size := fs.table[p].ino.size))] == fs.table;
    }
  }

  lemma PosWithin(table: seq<Slot>, fdt: seq<Desc>, d: nat)
    requires DescsOk(table, fdt) && d < |fdt| && fdt[d].slot.Some?
    ensures fdt[d].slot.value < |table| && fdt[d].pos <= table[fdt[d].slot.value].ino.size
  {
    assert DescOk(fdt[d], table);
  }

  lemma ReadInv(fs: Fs, caller: nat, fd: nat, len: nat)
    requires Inv(fs) && Shape(fs) && Legal(fs, Read(caller, fd, len)) && 0 < SlotOf(fs, caller, fd).num < MAP_BITS
    ensures Inv(ReadFile(fs, caller, fd, len).0)
  {
    OpenFacts(fs, caller, fd);
    hide Inv;
    if ReadsAndWrites(DescOf(fs, caller, fd).mode) {
      AdvanceInv(fs, caller, fd, ReadCount(fs, caller, fd, len));
    }
  }

  lemma WriteInv(fs: Fs, caller: nat, fd: nat, bytes: seq<byte>)
    requires Inv(fs) && Shape(fs) && Legal(fs, Write(caller, fd, bytes)) && 0 < SlotOf(fs, caller, fd).num < MAP_BITS
    ensures Inv(WriteFile(fs, caller, fd, bytes).0)
  {
    hide Inv, Put;
    if ReadsAndWrites(DescOf(fs, caller, fd).mode) {
      var a := Base(fs.nSmap, SlotOf(fs, caller, fd).ino) + DescOf(fs, caller, fd).pos;
      DataIrrelevant(fs, Put(fs.data, a, bytes));
      AdvanceInv(fs.(data := Put(fs.data, a, bytes)), caller, fd, |bytes|);
    }
  }

  // ---------------------------------------------------------------- removing

  lemma UnlinkInv(fs: Fs, path: seq<byte>)
    requires Inv(fs) && Shape(fs) && Legal(fs, Unlink(path)) && Consistent(fs, path)
    ensures Inv(UnlinkFile(fs, path).0)
  {
    hide Inv, Get, Lookup, References, Compact, InodeOk;
    LookupInUse(fs, path);
    var nr := Lookup(fs, path);
    if path != [SLASH] && nr != 0 && StripPath(path).Name? && Get(fs.table, fs.inodes, nr).1.At? {
      var g := Get(fs.table, fs.inodes, nr);
      var fs1 := fs.(table := g.0);
      GetInv(fs, nr);
      InvShape(fs1);
      if Removable(g.0, g.1.p) {
        RootFacts(fs1);
        assert CanRemove(fs1, nr, g.1.p);
        RemovedInv(fs1, nr, g.1.p);
        assert Released(fs, g.0, nr, g.1.p) == Released(fs1, g.0, nr, g.1.p);
      }
    }
  }

  // ---------------------------------------------------------------- runs

  /** Every request keeps the invariant. */
  lemma StepInv(fs: Fs, r: Request)
    requires Inv(fs) && Shape(fs) && Legal(fs, r)
    ensures Inv(Step(fs, r).0) && Shape(Step(fs, r).0)
  {
    hide Inv, OpenFile, CloseFile, ReadFile, WriteFile, UnlinkFile, Lookup;
    match r {
      case Open(caller, path, flags) =>
        LookupInUse(fs, path);
        if CreatesNew(fs, path, flags) {
          RoomLeftFacts(fs);
        }
        OpenInv(fs, caller, path, flags);
      case Close(caller, fd) =>
        OpenFacts(fs, caller, fd);
        CloseInv(fs, caller, fd);
      case Read(caller, fd, len) =>
        OpenFacts(fs, caller, fd);
        ReadInv(fs, caller, fd, len);
      case Write(caller, fd, bytes) =>
        OpenFacts(fs, caller, fd);
        WriteInv(fs, caller, fd, bytes);
      case Unlink(path) =>
        UnlinkConsistent(fs, path);
        UnlinkInv(fs, path);
    }
    InvShape(Step(fs, r).0);
  }

  /** A run of requests; nothing follows a panic. */
  ghost predicate LegalRun(fs: Fs, rs: seq<Request>)
    requires Inv(fs) && Shape(fs)
    decreases |rs|
  {
    rs == [] || (Legal(fs, rs[0]) && (StepInv(fs, rs[0]); Step(fs, rs[0]).1 == Panic || LegalRun(Step(fs, rs[0]).0, rs[1..])))
  }

  ghost function Exec(fs: Fs, rs: seq<Request>): Fs
    requires Inv(fs) && Shape(fs) && LegalRun(fs, rs)
    decreases |rs|
  {
    if rs == [] then fs
    else
      StepInv(fs, rs[0]);
      if Step(fs, rs[0]).1 == Panic then fs else Exec(Step(fs, rs[0]).0, rs[1..])
  }

  /** Every run of requests keeps the invariant. */
  lemma {:induction false} ReachableInv(fs: Fs, rs: seq<Request>)
    requires Inv(fs) && Shape(fs) && LegalRun(fs, rs)
    ensures Inv(Exec(fs, rs)) && Shape(Exec(fs, rs))
    decreases |rs|
  {
    if rs != [] {
      StepInv(fs, rs[0]);
      if Step(fs, rs[0]).1 != Panic {
        ReachableInv(Step(fs, rs[0]).0, rs[1..]);
      }
    }
  }
}
