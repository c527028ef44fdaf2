/** The file system task: it serves its requests on the sectors of the disk and the tables in
    memory, and each of them does what its function in FsState says. */
module FsMachine {
  import opened Options
  import opened FsBits
  import opened FsDevice
  import opened FsMaps
  import opened FsFree
  import opened FsInodes
  import opened FsDirectory
  import opened FsEntries
  import opened FsTransfer
  import opened FsState
  import opened FsSuper
  import opened FsInvariant
  import opened FsTables
  import opened FsCreate
  import opened FsRemove
  import opened FsRuns
  import opened FsViews
  import opened FsMkfs

  class FileSystem {
    const dev: Device
    const nSmap: nat
    const table: array<Slot>
    const fdt: array<Desc>
    var filp: seq<seq<Option<nat>>>

    ghost function State(): Fs
      reads this, dev.disk, table, fdt
      requires DataSect(nSmap) <= dev.disk.Length
    {
      AsFs(nSmap, dev.disk[..], table[..], fdt[..], filp)
    }

    /** The disk has a directory, the buffer has its size, and no two arrays are the same. */
    ghost predicate Apart() {
      && dev.Valid() && dev.fsbuf.Length == 512 * BUF_SECTS && DataSect(nSmap) <= dev.disk.Length
      && table as object != dev.disk && table as object != dev.fsbuf
      && fdt as object != dev.disk && fdt as object != dev.fsbuf && fdt as object != table
    }

    ghost predicate Valid()
      reads this, dev.disk, table, fdt
    {
      Apart() && Inv(State()) && Shape(State())
    }

    constructor (dev: Device, nSmap: nat, table: array<Slot>, fdt: array<Desc>, filp: seq<seq<Option<nat>>>)
      ensures this.dev == dev && this.nSmap == nSmap && this.table == table && this.fdt == fdt && this.filp == filp
    {
      this.dev := dev;
      this.nSmap := nSmap;
      this.table := table;
      this.fdt := fdt;
      this.filp := filp;
    }

    // -------------------------------------------------------------- do_close

    method DoClose(caller: nat, fd: nat)
      requires Valid() && ValidFd(State(), caller, fd)
      modifies this`filp, table, fdt
      ensures Valid() && old(IsOpen(State(), caller, fd)) && State() == old(CloseFile(State(), caller, fd))
    {
      ghost var fs := State();
      OpenFacts(fs, caller, fd);
      CloseInv(fs, caller, fd);
      InvShape(CloseFile(fs, caller, fd));
      hide *;
      hide Apart;
      PutFd(caller, fd);
    }

    method PutFd(caller: nat, fd: nat)
      requires Apart() && IsOpen(State(), caller, fd)
      modifies this`filp, table, fdt
      ensures Apart() && State() == old(CloseFile(State(), caller, fd))
    {
      hide Bits, Inodes, Dir, FlatFrom;
      ghost var t, x, q := table[..], fdt[..], filp;
      var d := filp[caller][fd].value;
      var p := fdt[d].slot.value;
      PutInode(table, p);
      fdt[d] := fdt[d].(slot := None);
      filp := filp[caller := filp[caller][fd := None]];
      OtherTables(nSmap, dev.disk[..], t, x, q, table[..], fdt[..], filp);
    }

    // -------------------------------------------------------------- do_open

    /** First free entry of a process's files. */
    method FindFd(caller: nat) returns (fd: nat)
      requires caller < |filp| && |filp[caller]| == NR_FILES
      ensures fd == FreeFd(filp[caller], NR_FILES)
    {
      fd := 0;
      while fd < NR_FILES && filp[caller][fd].Some?
        invariant fd <= NR_FILES && forall i | 0 <= i < fd :: filp[caller][i].Some?
      {
        fd := fd + 1;
      }
      FreeFdBelow(filp[caller], fd, NR_FILES);
    }

    /** First free descriptor. */
    method FindDesc() returns (d: nat)
      requires fdt.Length == NR_FILE_DESC
      ensures d == FreeDesc(fdt[..], NR_FILE_DESC)
    {
      d := 0;
      while d < NR_FILE_DESC && fdt[d].slot.Some?
        invariant d <= NR_FILE_DESC && forall i | 0 <= i < d :: fdt[i].slot.Some?
      {
        d := d + 1;
      }
      FreeDescBelow(fdt[..], d, NR_FILE_DESC);
    }

    /** Loads inode nr, which is new, and writes what it is to begin with to the table and to
        the disk. */
    method NewInodeSlot(nr: nat, f: nat) returns (r: Found)
      requires Apart() && 0 < nr < MAP_BITS && f > 0 && FirstSect(nSmap) + f < LIMIT32
      requires FindUsed(table[..], nr, table.Length) < 0
      modifies table, dev.disk, dev.fsbuf
      ensures r == Get(old(table[..]), old(State().inodes), nr).1
      ensures r.At? ==>
                var x := NewInode(nSmap, f);
                && r.p < table.Length && old(table[r.p]).cnt == 0
                && table[..] == old(table[..])[r.p := Slot(1, nr, x)]
                && State() == old(State()).(table := table[..], inodes := old(State().inodes)[nr - 1 := x])
    {
      hide Bits, Inodes, Dir, FlatFrom, FindUsed;
      ghost var fs, d, t := State(), dev.disk[..], table[..];
      r := GetInode(dev, table, InodeSect(nSmap), nr);
      if r.At? {
        NewSlotOverwritten(t, fs.inodes, nr);
        table[r.p] := Slot(1, nr, Inode(I_REGULAR, 0, FirstSect(nSmap) + f - 1, FILE_SECTS));
        SyncInode(dev, table, InodeSect(nSmap), r.p);
        InodesChanged(nSmap, d, dev.disk[..], t, fdt[..], filp);
        OtherTables(nSmap, dev.disk[..], t, fdt[..], filp, table[..], fdt[..], filp);
      }
    }

    /** create_file */
    method NewFile(path: seq<byte>) returns (r: Found)
      requires Valid() && ValidPath(path) && CreatesNew(State(), path, 1)
      requires RoomLeft(State()) && HasRoom(State())
      modifies table, dev.disk, dev.fsbuf
      ensures r == old(CreateFile(State(), StripPath(path).name)).1
      ensures r.At? ==> State() == old(CreateFile(State(), StripPath(path).name)).0
    {
      ghost var fs := State();
      assert ReadyToCreate(fs) by {
        RootFacts(fs);
        SomeBitFree(fs.nSmap, fs.smapBits, fs.imapBits, fs.inodes);
      }
      hide Inv, Shape, State, CreateFile, HasRoom, RoomLeft, ReadyToCreate, Lookup;
      var filename := new byte[128];
      var ok := CopyName(filename, path);
      assert ok && State() == fs;
      r := FillFile(filename, StripPath(path).name);
    }

    method FillFile(filename: array<byte>, ghost name: seq<byte>) returns (r: Found)
      requires Apart() && ReadyToCreate(State())
      requires filename != dev.fsbuf && filename as object != dev.disk && filename as object != table
      requires |name| <= 12 && |name| < filename.Length && filename[..|name| + 1] == name + [0] && 0 !in name
      modifies table, dev.disk, dev.fsbuf
      ensures r == old(CreateFile(State(), name)).1
      ensures r.At? ==> State() == old(CreateFile(State(), name)).0
    {
      hide Bits, Inodes, Dir, FlatFrom, FindUsed, FirstFree, AddName, GrownSize, FirstUnused, SetRange;
      ghost var fs, d, t := State(), dev.disk[..], table[..];
      ghost var nr, f := FirstFree(fs.imapBits), FirstFree(fs.smapBits);
      var nr' := AllocImapBit(dev, IMAP_SECT);
      assert nr' == nr;
      ghost var d1 := dev.disk[..];
      ImapChanged(nSmap, d, d1, t, fdt[..], filp);
      SetOne(fs.imapBits, nr, true);
      var sect := AllocSmapBit(dev, SMAP_SECT, nSmap, FirstSect(nSmap), FILE_SECTS, f);
      SmapChanged(nSmap, d1, dev.disk[..], t, fdt[..], filp);
      r := NewInodeSlot(nr', sect + 1 - FirstSect(nSmap));
      if r.At? {
        ghost var d2 := dev.disk[..];
        NewDirEntry(dev, table, InodeSect(nSmap), ROOT_SLOT, nr', filename, name);
        DirChanged(nSmap, d2, dev.disk[..], table[..], fdt[..], filp);
      }
    }

    /** search_file */
    method Find(path: seq<byte>) returns (nr: nat)
      requires Apart() && Shape(State()) && 0 !in path && table[ROOT_SLOT].ino.start == FirstSect(nSmap)
      modifies dev.fsbuf
      ensures nr == Lookup(State(), path)
    {
      hide Dir, Bits, Inodes, FlatFrom, Search;
      nr := SearchFile(dev, table[ROOT_SLOT].ino.start, table[ROOT_SLOT].ino.size, table[ROOT_SLOT].num, path);
    }

    /** One more reference to inode nr. */
    method LoadSlot(nr: nat) returns (r: Found)
      requires Apart() && nr <= NR_INODES
      modifies table, dev.fsbuf
      ensures r == Get(old(table[..]), old(State().inodes), nr).1
      ensures table[..] == Get(old(table[..]), old(State().inodes), nr).0
      ensures State() == old(State()).(table := table[..])
    {
      hide Bits, Inodes, Dir, FlatFrom, Get;
      ghost var t := table[..];
      r := GetInode(dev, table, InodeSect(nSmap), nr);
      OtherTables(nSmap, dev.disk[..], t, fdt[..], filp, table[..], fdt[..], filp);
    }

    /** The part of do_open that looks for the file, or makes it. */
    method FindOrCreate(path: seq<byte>, flags: nat) returns (r: Found)
      requires Valid() && ValidPath(path) && Lookup(State(), path) < MAP_BITS
      requires CreatesNew(State(), path, flags) ==> RoomLeft(State()) && HasRoom(State())
      modifies table, dev.disk, dev.fsbuf
      ensures r == old(OpenInode(State(), path, flags)).1
      ensures r != TableFull ==> State() == old(OpenInode(State(), path, flags)).0
    {
      ghost var fs := State();
      RootFacts(fs);
      hide Inv, Lookup, CreateFile, HasRoom, RoomLeft, AsFs, Get;
      TablesOf(fs);
      var nr := Find(path);
      if Creates(flags) {
        if nr != 0 || StripPath(path).BadPath? {
          return NoInode;
        }
        r := NewFile(path);
        CreateKinds(fs, StripPath(path).name);
      } else {
        if StripPath(path).BadPath? {
          return NoInode;
        }
        r := LoadSlot(nr);
      }
    }

    /** Serves an open request. */
    method DoOpen(caller: nat, path: seq<byte>, flags: nat) returns (reply: Reply)
      requires Valid() && CanOpen(State(), caller, path, flags)
      modifies this`filp, table, fdt, dev.disk, dev.fsbuf
      ensures Apart() && reply == old(Opened(State(), caller, path, flags)).1
      ensures reply != Panic ==> State() == old(Opened(State(), caller, path, flags)).0
      ensures reply != Panic && old(Legal(State(), Open(caller, path, flags))) ==> Valid()
    {
      ghost var fs := State();
      ghost var r := Opened(fs, caller, path, flags);
      if Legal(fs, Open(caller, path, flags)) {
        StepInv(fs, Open(caller, path, flags));
        assert Step(fs, Open(caller, path, flags)) == r;
      }
      hide Inv, Lookup, CreatesNew, HasRoom, RoomLeft, AsFs, Step, Legal, OpenFile, Shape;
      reply := OpenTables(caller, path, flags);
    }

    method OpenTables(caller: nat, path: seq<byte>, flags: nat) returns (reply: Reply)
      requires Valid() && ValidPath(path) && Lookup(State(), path) < MAP_BITS && caller < |filp|
      requires CreatesNew(State(), path, flags) ==> RoomLeft(State()) && HasRoom(State())
      modifies this`filp, table, fdt, dev.disk, dev.fsbuf
      ensures Apart() && reply == old(OpenFile(State(), caller, path, flags)).1
      ensures reply != Panic ==> State() == old(OpenFile(State(), caller, path, flags)).0
    {
      ghost var fs := State();
      TablesOf(fs);
      assert |filp[caller]| == NR_FILES && fdt.Length == NR_FILE_DESC;
      hide Inv, Shape, Lookup, CreatesNew, HasRoom, RoomLeft, AsFs, OpenInode, FreeFd, FreeDesc, Attach, ValidPath;
      var fd := FindFd(caller);
      var d := FindDesc();
      if fd == NR_FILES || d == NR_FILE_DESC {
        return Panic;
      }
      var r := FindOrCreate(path, flags);
      if r == NoInode {
        reply := Failed;
      } else if r == TableFull {
        reply := Panic;
      } else {
        SetFd(caller, fd, d, flags, r.p);
        reply := Fd(fd);
      }
    }

    /** Connects the process's file fd with descriptor d, and that with slot p. */
    method SetFd(caller: nat, fd: nat, d: nat, flags: nat, p: nat)
      requires Apart() && caller < |filp| && fd < |filp[caller]| && d < fdt.Length
      modifies this`filp, fdt
      ensures State() == old(Attach(State(), caller, fd, d, flags, p))
    {
      hide Bits, Inodes, Dir, FlatFrom;
      ghost var q, x := filp, fdt[..];
      filp := filp[caller := filp[caller][fd := Some(d)]];
      fdt[d] := Desc(flags, 0, Some(p));
      OtherTables(nSmap, dev.disk[..], table[..], x, q, table[..], fdt[..], filp);
    }

    // -------------------------------------------------------------- do_rdwt

    /** The sectors that the request touches exist: from the one its first byte is in to the
        end of the last buffer full. */
    ghost predicate SectorsExist(caller: nat, fd: nat, read: bool, len: nat)
      reads this, dev.disk, table, fdt
      requires Apart() && IsOpen(State(), caller, fd)
    {
      var x, pos := SlotOf(State(), caller, fd).ino, DescOf(State(), caller, fd).pos;
      x.start + pos / 512 + Touched(pos, len, if read then x.size else x.nr * 512, BUF_SECTS) <= dev.disk.Length
    }

    /** Serves a read or a write request. Returns -1, or the number of bytes. */
    method DoReadWrite(caller: nat, fd: nat, read: bool, buf: array<byte>) returns (n: int)
      requires Valid() && Legal(State(), RdWt(caller, fd, read, buf[..])) && SectorsExist(caller, fd, read, buf.Length)
      requires buf != dev.fsbuf && buf as object != dev.disk && buf as object != table && buf as object != fdt
      modifies table, fdt, dev.disk, dev.fsbuf, buf
      ensures Valid() && State() == old(Step(State(), RdWt(caller, fd, read, buf[..]))).0
      ensures Replied(old(Step(State(), RdWt(caller, fd, read, buf[..]))).1, read, n, old(buf[..]), buf[..])
    {
      ghost var fs, b := State(), buf[..];
      ghost var r := RdWt(caller, fd, read, b);
      StepInv(fs, r);
      StepTransfer(fs, caller, fd, read, b);
      hide Inv, Step, Legal, AsFs, Shape, Replied, RdWt, Transferable, SectorsExist, Transfer;
      n := MoveBytes(caller, fd, read, buf);
    }

    method MoveBytes(caller: nat, fd: nat, read: bool, buf: array<byte>) returns (n: int)
      requires Apart() && Transferable(State(), caller, fd, read, buf.Length) && SectorsExist(caller, fd, read, buf.Length)
      requires buf != dev.fsbuf && buf as object != dev.disk && buf as object != table && buf as object != fdt
      modifies table, fdt, dev.disk, dev.fsbuf, buf
      ensures State() == old(Transfer(State(), caller, fd, read, buf[..])).0
      ensures Replied(old(Transfer(State(), caller, fd, read, buf[..])).1, read, n, old(buf[..]), buf[..])
    {
      hide Inodes, Dir, Bits, FlatFrom, Flat, Put, Cut, Advance, Touched, SectorsExist;
      if !ReadsAndWrites(fdt[filp[caller][fd].value].mode) {
        return -1;
      }
      n := MoveData(caller, fd, read, buf);
      MoveOn(caller, fd, n);
    }

    /** Copies bytes from or to the file, at its position. */
    method MoveData(caller: nat, fd: nat, read: bool, buf: array<byte>) returns (n: nat)
      requires Apart() && Transferable(State(), caller, fd, read, buf.Length) && SectorsExist(caller, fd, read, buf.Length)
      requires ReadsAndWrites(DescOf(State(), caller, fd).mode)
      requires buf != dev.fsbuf && buf as object != dev.disk && buf as object != table && buf as object != fdt
      modifies dev.disk, dev.fsbuf, buf
      ensures var fs := old(State());
              var a := Base(nSmap, SlotOf(fs, caller, fd).ino) + DescOf(fs, caller, fd).pos;
              && n == MoveCount(fs, caller, fd, read, buf.Length)
              && Moved(fs, State(), a, read, n, old(buf[..]), buf[..])
    {
      hide Inodes, Dir, Bits, FlatFrom, Flat, Put, Cut, Touched, Transferred, Moved;
      ghost var b, disk := buf[..], dev.disk[..];
      var d := filp[caller][fd].value;
      var p, pos := fdt[d].slot.value, fdt[d].pos;
      var limit := if read then table[p].ino.size else table[p].ino.nr * SECTOR_SIZE;
      assert dev.fsbuf.Length / 512 == BUF_SECTS;
      TransferredWithin(pos, buf.Length, limit, BUF_SECTS);
      n := DoRdWt(dev, table[p].ino.start, pos, limit, read, buf, buf.Length);
      ghost var a := Base(nSmap, table[p].ino) + pos;
      if read {
        DataRead(nSmap, disk, table[..], fdt[..], filp, a, b, n);
      } else {
        assert b[..n] == b;
        DataWritten(nSmap, disk, dev.disk[..], table[..], fdt[..], filp, a, b);
      }
    }

    /** The position moves on, and the inode is written back when the file has grown. */
    method MoveOn(caller: nat, fd: nat, n: nat)
      requires Apart() && Shape(State()) && IsOpen(State(), caller, fd) && 0 < SlotOf(State(), caller, fd).num <= NR_INODES
      requires Storable(SlotOf(State(), caller, fd).ino) && DescOf(State(), caller, fd).pos + n < LIMIT32
      modifies table, fdt, dev.disk, dev.fsbuf
      ensures State() == old(Advance(State(), caller, fd, n))
    {
      hide Bits, Inodes, Dir, FlatFrom;
      ghost var disk, t, x := dev.disk[..], table[..], fdt[..];
      var d := filp[caller][fd].value;
      var p := fdt[d].slot.value;
      fdt[d] := fdt[d].(pos := fdt[d].pos + n);
      if fdt[d].pos > table[p].ino.size {
        table[p] := table[p].(ino := table[p].ino.(size := fdt[d].pos));
        SyncInode(dev, table, InodeSect(nSmap), p);
        InodesChanged(nSmap, disk, dev.disk[..], t, x, filp);
        OtherTables(nSmap, dev.disk[..], t, x, filp, table[..], fdt[..], filp);
      } else {
        OtherTables(nSmap, disk, t, x, filp, table[..], fdt[..], filp);
      }
    }

    // -------------------------------------------------------------- do_unlink

    /** Serves an unlink request. */
    method DoUnlink(path: seq<byte>) returns (reply: Reply)
      requires Valid() && ValidPath(path)
      modifies table, dev.disk, dev.fsbuf
      ensures Apart() && reply == old(Unlinked(State(), path)).1
      ensures reply != Panic ==> State() == old(Unlinked(State(), path)).0
      ensures reply != Panic && old(Legal(State(), Unlink(path))) ==> Valid()
    {
      ghost var fs := State();
      ghost var r := Unlinked(fs, path);
      if Legal(fs, Unlink(path)) {
        StepInv(fs, Unlink(path));
        StepUnlink(fs, path);
      }
      hide Inv, Shape, Legal, Step, AsFs, UnlinkFile, Consistent, ValidPath;
      reply := UnlinkPath(path);
    }

    method UnlinkPath(path: seq<byte>) returns (reply: Reply)
      requires Valid() && ValidPath(path) && Consistent(State(), path)
      modifies table, dev.disk, dev.fsbuf
      ensures Apart() && reply == old(UnlinkFile(State(), path)).1
      ensures reply != Panic ==> State() == old(UnlinkFile(State(), path)).0
    {
      ghost var fs := State();
      UnlinkReady(fs, path);
      UnlinkFileIs(fs, path);
      RootFacts(fs);
      TablesOf(fs);
      hide Inv, Lookup, AsFs, UnlinkFile, UnlinkIsReady, UnlinkedInode, Consistent;
      if path == [SLASH] {
        return Failed;
      }
      var nr := Find(path);
      if nr == 0 || StripPath(path).BadPath? {
        return Failed;
      }
      reply := UnlinkInode(nr);
    }

    /** Gets the inode and removes the file. */
    method UnlinkInode(nr: nat) returns (reply: Reply)
      requires Apart() && 0 < nr < MAP_BITS && UnlinkIsReady(State(), nr)
      modifies table, dev.disk, dev.fsbuf
      ensures reply == old(UnlinkedInode(State(), nr)).1
      ensures reply != Panic ==> State() == old(UnlinkedInode(State(), nr)).0
    {
      hide AsFs, Get, ReadyToRemove, Removable, Released, Unnamed, EntryOf, Mapped;
      ghost var fs := State();
      TablesOf(fs);
      var r := LoadSlot(nr);
      GetKinds(fs.table, fs.inodes, nr);
      if r == TableFull {
        return Panic;
      }
      ReleasedSame(fs, nr);
      reply := UnlinkSlot(nr, r.p);
    }

    /** Removes the file in slot p if it is a regular one and not open. */
    method UnlinkSlot(nr: nat, p: nat) returns (reply: Reply)
      requires Apart() && p < table.Length && (Removable(table[..], p) ==> ReadyToRemove(State(), nr, p))
      modifies table, dev.disk, dev.fsbuf
      ensures if old(Removable(table[..], p)) then
                reply == Done && State() == old(Unnamed(Released(State(), State().table, nr, p), EntryOf(State(), nr)))
              else reply == Failed && State() == old(State())
    {
      hide ReadyToRemove, Released, Unnamed, EntryOf, AsFs, Mapped;
      if CanBeRemoved(p) {
        RemoveFile(nr, p);
        reply := Done;
      } else {
        reply := Failed;
      }
    }

    /** pin->i_mode == I_REGULAR && pin->i_cnt <= 1 */
    predicate CanBeRemoved(p: nat)
      reads table
      requires p < table.Length
      ensures CanBeRemoved(p) == Removable(table[..], p)
    {
      table[p].ino.mode == I_REGULAR && table[p].cnt <= 1
    }

    /** Frees what the file with inode nr in slot p has, and removes its name. */
    method RemoveFile(nr: nat, p: nat)
      requires Apart() && ReadyToRemove(State(), nr, p)
      modifies table, dev.disk, dev.fsbuf
      ensures State() == old(Unnamed(Released(State(), State().table, nr, p), EntryOf(State(), nr)))
    {
      hide Bits, Inodes, Dir, FlatFrom, Uniform, ShrunkSize, FirstWith, SetRange;
      ghost var fs, d, t := State(), dev.disk[..], table[..];
      FreeImapBit(dev, nr);
      ghost var d1 := dev.disk[..];
      ImapChanged(nSmap, d, d1, t, fdt[..], filp);
      FreeBits(dev, SMAP_SECT, nSmap, table[p].ino.start - FirstSect(nSmap) + 1, table[p].ino.nr);
      ghost var d2 := dev.disk[..];
      SmapChanged(nSmap, d1, d2, t, fdt[..], filp);
      table[p] := table[p].(ino := NO_FILE);
      SyncInode(dev, table, InodeSect(nSmap), p);
      PutInode(table, p);
      ghost var d3 := dev.disk[..];
      assert table[..] == t[p := Slot(0, nr, NO_FILE)];
      InodesChanged(nSmap, d2, d3, t, fdt[..], filp);
      RemoveEntry(dev, table, InodeSect(nSmap), ROOT_SLOT, nr);
      DirChanged(nSmap, d3, dev.disk[..], t, fdt[..], filp);
      OtherTables(nSmap, dev.disk[..], t, fdt[..], filp, table[..], fdt[..], filp);
    }

    lemma TablesOf(fs: Fs)
      requires Apart() && fs == State()
      ensures fs.table == table[..] && fs.fdt == fdt[..] && fs.filp == filp && fs.nSmap == nSmap
    {}
  }

  /** The request as it is in FsState; b is what the user's buffer holds. */
  ghost function RdWt(caller: nat, fd: nat, read: bool, b: seq<byte>): Request {
    if read then Read(caller, fd, |b|) else Write(caller, fd, b)
  }

  /** What the caller gets: -1, or the number of bytes, and for a read the bytes at the start of
      its buffer. */
  ghost predicate Replied(reply: Reply, read: bool, n: int, b: seq<byte>, b': seq<byte>) {
    if reply == Failed then n == -1 && b' == b
    else if read then reply.Bytes? && n == |reply.bytes| <= |b| && b' == reply.bytes + b[n..]
    else n == |b| && reply == Written(|b|) && b' == b
  }

  /** How many bytes are moved. */
  ghost function MoveCount(fs: Fs, caller: nat, fd: nat, read: bool, len: nat): nat
    requires IsOpen(fs, caller, fd)
  {
    if read then ReadCount(fs, caller, fd, len) else len
  }

  ghost function Transfer(fs: Fs, caller: nat, fd: nat, read: bool, b: seq<byte>): (Fs, Reply)
    requires Transferable(fs, caller, fd, read, |b|)
  {
    if read then ReadFile(fs, caller, fd, |b|) else WriteFile(fs, caller, fd, b)
  }

  lemma StepTransfer(fs: Fs, caller: nat, fd: nat, read: bool, b: seq<byte>)
    requires Inv(fs) && Shape(fs) && Legal(fs, RdWt(caller, fd, read, b))
    ensures Transferable(fs, caller, fd, read, |b|) && Step(fs, RdWt(caller, fd, read, b)) == Transfer(fs, caller, fd, read, b)
  {
    OpenFacts(fs, caller, fd);
    PosWithin(fs.table, fs.fdt, fs.filp[caller][fd].value);
    hide Inv, ReadFile, WriteFile;
  }

  /** What a request to read or write relies on. */
  ghost predicate Transferable(fs: Fs, caller: nat, fd: nat, read: bool, len: nat) {
    && Shape(fs) && IsOpen(fs, caller, fd)
    && var x, pos := SlotOf(fs, caller, fd), DescOf(fs, caller, fd).pos;
    && 0 < x.num <= NR_INODES && Storable(x.ino)
    && (ReadsAndWrites(DescOf(fs, caller, fd).mode) ==>
          && InExtent(fs, caller, fd, MoveCount(fs, caller, fd, read, len))
          && x.ino.nr == FILE_SECTS && pos <= x.ino.size <= FILE_BYTES)
  }

  /** n bytes of the data have been read into the buffer, or written from it. */
  ghost predicate Moved(fs: Fs, fs': Fs, a: nat, read: bool, n: nat, b: seq<byte>, b': seq<byte>) {
    && n <= |b| && (n > 0 ==> a + n <= |fs.data|)
    && if read then fs' == fs && b' == Cut(fs.data, a, n) + b[n..]
       else n == |b| && fs' == fs.(data := Put(fs.data, a, b)) && b' == b
  }

  lemma DataRead(nSmap: nat, d: seq<Sector>, t: seq<Slot>, fdt: seq<Desc>, filp: seq<seq<Option<nat>>>, a: nat, b: seq<byte>, n: nat)
    requires DataSect(nSmap) <= |d| && n <= |b| && (n > 0 ==> 512 * DataSect(nSmap) + a + n <= 512 * |d|)
    ensures var fs := AsFs(nSmap, d, t, fdt, filp);
            Moved(fs, fs, a, true, n, b, Put(b, 0, Cut(Flat(d), 512 * DataSect(nSmap) + a, n)))
  {
    hide Bits, Inodes, Dir, Flat, Put, Cut;
    CutFrom(Flat(d), 512 * DataSect(nSmap), a, n);
    PutFirst(b, Cut(Flat(d), 512 * DataSect(nSmap) + a, n));
  }

  lemma DataWritten(nSmap: nat, d: seq<Sector>, d': seq<Sector>, t: seq<Slot>, fdt: seq<Desc>, filp: seq<seq<Option<nat>>>,
                    a: nat, b: seq<byte>)
    requires DataSect(nSmap) <= |d| == |d'| && (|b| > 0 ==> 512 * DataSect(nSmap) + a + |b| <= 512 * |d|)
    requires Flat(d') == Put(Flat(d), 512 * DataSect(nSmap) + a, b)
    ensures Moved(AsFs(nSmap, d, t, fdt, filp), AsFs(nSmap, d', t, fdt, filp), a, false, |b|, b, b)
  {
    hide Bits, Inodes, Dir, Flat, Put, FlatFrom;
    DataChanged(nSmap, d, d', t, fdt, filp, 512 * DataSect(nSmap) + a, b);
  }

  lemma CutFrom(f: seq<byte>, o: nat, a: nat, n: nat)
    requires o <= |f| && (n > 0 ==> o + a + n <= |f|)
    ensures Cut(f, o + a, n) == Cut(f[o..], a, n)
  {}

  lemma PutFirst(f: seq<byte>, b: seq<byte>)
    requires |b| <= |f|
    ensures Put(f, 0, b) == b + f[|b|..]
  {
    if b == [] {
      assert f == [] + f[0..];
    } else {
      assert f[..0] == [];
    }
  }

  /** What removing a file relies on. */
  ghost predicate ReadyToRemove(fs: Fs, nr: nat, p: nat) {
    && Shape(fs) && 0 < nr < MAP_BITS && fs.imapBits[nr] && p < |fs.table| && Mapped(fs, fs.table, p)
    && fs.table[p].cnt == 1 && fs.table[p].num == nr
    && Uniform(fs.smapBits, ExtentBit(fs.nSmap, fs.table[p].ino), fs.table[p].ino.nr, true)
    && EntryOf(fs, nr) < DirSize(fs.table) / 16
    && fs.table[ROOT_SLOT].ino.start == FirstSect(fs.nSmap) && Storable(fs.table[ROOT_SLOT].ino)
  }

  /** The bits of an extent are set. */
  lemma BlockSet(nSmap: nat, smapBits: seq<bool>, bits: seq<bool>, inodes: seq<Inode>, i: nat, s: nat)
    requires SectorMapExact(nSmap, smapBits, bits, inodes) && Owns(nSmap, bits, inodes, i, s)
    ensures Uniform(smapBits, 1 + FILE_SECTS * s, FILE_SECTS, true)
  {
    assert Taken(nSmap, bits, inodes, s);
    hide Owns, Taken;
    forall b | 1 + FILE_SECTS * s <= b < 1 + FILE_SECTS * s + FILE_SECTS ensures smapBits[b] {
      assert (b - 1) / FILE_SECTS == s;
    }
  }

  /** If the inode's file can be removed, all is ready for that. */
  ghost predicate UnlinkIsReady(fs: Fs, nr: nat) {
    && Shape(fs) && 0 < nr < MAP_BITS
    && var g := Get(fs.table, fs.inodes, nr);
    g.1.At? && Removable(g.0, g.1.p) ==> ReadyToRemove(fs.(table := g.0), nr, g.1.p)
  }

  /** What UnlinkFile does once it has the inode's number. */
  ghost function UnlinkedInode(fs: Fs, nr: nat): (Fs, Reply)
    requires UnlinkIsReady(fs, nr)
  {
    var g := Get(fs.table, fs.inodes, nr);
    if g.1.At? then
      if Removable(g.0, g.1.p) then (Unnamed(Released(fs, g.0, nr, g.1.p), EntryOf(fs, nr)), Done) else (fs.(table := g.0), Failed)
    else (fs, Panic)
  }

  lemma ReleasedSame(fs: Fs, nr: nat)
    requires UnlinkIsReady(fs, nr) && Get(fs.table, fs.inodes, nr).1.At?
    ensures var g := Get(fs.table, fs.inodes, nr);
            var fs1 := fs.(table := g.0);
            Removable(g.0, g.1.p) ==>
              && ReadyToRemove(fs1, nr, g.1.p)
              && UnlinkedInode(fs, nr) == (Unnamed(Released(fs1, g.0, nr, g.1.p), EntryOf(fs1, nr)), Done)
  {
    hide FindUsed, FindFree, SetRange, FirstWith, ShrunkSize;
  }

  lemma UnlinkFileIs(fs: Fs, path: seq<byte>)
    requires Shape(fs) && Consistent(fs, path) && (Lookup(fs, path) != 0 ==> UnlinkIsReady(fs, Lookup(fs, path)))
    ensures UnlinkFile(fs, path) == if path == [SLASH] || Lookup(fs, path) == 0 || StripPath(path).BadPath? then (fs, Failed)
                                    else UnlinkedInode(fs, Lookup(fs, path))
  {
    hide Lookup, FindUsed, FindFree, ReadyToRemove, Released, Unnamed, EntryOf, Mapped;
    if Lookup(fs, path) != 0 {
      GetKinds(fs.table, fs.inodes, Lookup(fs, path));
    }
  }

  /** When the path is that of a file that can be removed, all is ready for that. */
  lemma UnlinkReady(fs: Fs, path: seq<byte>)
    requires Inv(fs) && Shape(fs)
    ensures Lookup(fs, path) < MAP_BITS && (Lookup(fs, path) != 0 ==> UnlinkIsReady(fs, Lookup(fs, path)))
  {
    hide InodeOk, Inv, Get, Lookup, Uniform;
    LookupInUse(fs, path);
    var nr := Lookup(fs, path);
    if nr != 0 && Get(fs.table, fs.inodes, nr).1.At? {
      var g := Get(fs.table, fs.inodes, nr);
      var fs1 := fs.(table := g.0);
      GetInv(fs, nr);
      RootFacts(fs1);
      HasEntry(fs1, nr);
      if Removable(g.0, g.1.p) {
        RegularMapped(fs1, nr, g.1.p);
        RegularBits(fs1, nr);
      }
    }
  }

  lemma RegularBits(fs: Fs, nr: nat)
    requires Inv(fs) && Shape(fs) && 0 < nr < MAP_BITS && fs.imapBits[nr] && fs.inodes[nr - 1].mode == I_REGULAR
    ensures ExtentBit(fs.nSmap, fs.inodes[nr - 1]) >= 0
    ensures Uniform(fs.smapBits, ExtentBit(fs.nSmap, fs.inodes[nr - 1]), fs.inodes[nr - 1].nr, true)
  {
    var s := BlockOf(fs.nSmap, fs.imapBits, fs.inodes, |fs.data|, nr);
    hide Uniform;
    BlockSet(fs.nSmap, fs.smapBits, fs.imapBits, fs.inodes, nr, s);
  }

  lemma GetKinds(t: seq<Slot>, inodes: seq<Inode>, nr: nat)
    requires 0 < nr <= |inodes|
    ensures Get(t, inodes, nr).1 != NoInode
  {}

  lemma CreateKinds(fs: Fs, name: seq<byte>)
    requires Shape(fs) && |name| <= 12 && HasRoom(fs)
    ensures CreateFile(fs, name).1 != NoInode
  {}

  /** What making a file relies on. */
  ghost predicate ReadyToCreate(fs: Fs) {
    && Shape(fs) && HasRoom(fs) && IsFirstFree(fs.smapBits, FirstFree(fs.smapBits))
    && fs.table[ROOT_SLOT].num == ROOT_INODE && fs.table[ROOT_SLOT].ino.start == FirstSect(fs.nSmap)
    && Storable(fs.table[ROOT_SLOT].ino)
  }

  lemma {:induction false} FreeFdBelow(files: seq<Option<nat>>, fd: nat, n: nat)
    requires fd <= n <= |files| && (forall i | 0 <= i < fd :: files[i].Some?) && (fd < n ==> files[fd].None?)
    ensures FreeFd(files, n) == fd
  {
    if fd < n {
      FreeFdBelow(files, fd, n - 1);
    }
  }

  lemma {:induction false} FreeDescBelow(fdt: seq<Desc>, d: nat, n: nat)
    requires d <= n <= |fdt| && (forall i | 0 <= i < d :: fdt[i].slot.Some?) && (d < n ==> fdt[d].slot.None?)
    ensures FreeDesc(fdt, n) == d
  {
    if d < n {
      FreeDescBelow(fdt, d, n - 1);
    }
  }

  /** Makes the file system and loads the inode of the directory. `size` is the number of
      sectors of the device; the directory's sectors, apart from the first, are zero. */
  method InitFs(dev: Device, size: nat, processes: nat) returns (s: FileSystem)
    requires dev.Valid() && dev.fsbuf.Length == 512 * BUF_SECTS && DataSect(MapSects(size)) <= dev.disk.Length
    requires FirstSect(MapSects(size)) + MapSects(size) * 4096 < LIMIT32 && size < LIMIT32
    requires RestZero(dev.disk[..], MapSects(size))
    modifies dev.disk, dev.fsbuf
    ensures fresh(s) && fresh(s.table) && fresh(s.fdt) && s.dev == dev && s.nSmap == MapSects(size)
    ensures s.Valid() && IsNew(s.State()) && |s.filp| == processes && HasSuper(dev.disk[..], size)
  {
    var n, t, x := StartTables(dev, size);
    hide MapSects, HasSuper, NewDisk, Started, NoDescs;
    s := Assembled(dev, n, t, x, processes);
  }

  /** The file system on a new disk. */
  method Assembled(dev: Device, n: nat, t: array<Slot>, x: array<Desc>, processes: nat) returns (s: FileSystem)
    requires dev.Valid() && dev.fsbuf.Length == 512 * BUF_SECTS && n > 0 && DataSect(n) <= dev.disk.Length
    requires FirstSect(n) + n * 4096 < LIMIT32 && NewDisk(dev.disk[..], n) && Started(dev.disk[..], n, t[..]) && NoDescs(x[..])
    requires t as object != dev.disk && t as object != dev.fsbuf && x as object != dev.disk && x as object != dev.fsbuf
    requires x as object != t
    ensures fresh(s) && s.table == t && s.fdt == x && s.dev == dev && s.nSmap == n
    ensures s.Valid() && IsNew(s.State()) && |s.filp| == processes
  {
    var q := ClosedFiles(processes);
    FreshState(n, dev.disk[..], t[..], x[..], q);
    hide Inv, Shape, AsFs, IsNew, NewDisk, Started, FreshTables, NoDescs, NoFiles;
    s := new FileSystem(dev, n, t, x, q);
    assert s.State() == AsFs(n, dev.disk[..], t[..], x[..], q);
  }

  ghost predicate NoDescs(fdt: seq<Desc>) {
    |fdt| == NR_FILE_DESC && forall d | 0 <= d < |fdt| :: fdt[d].slot == None
  }

  ghost predicate NoFiles(filp: seq<seq<Option<nat>>>) {
    forall q | 0 <= q < |filp| :: |filp[q]| == NR_FILES && forall fd | 0 <= fd < NR_FILES :: filp[q][fd] == None
  }

  function ClosedFiles(processes: nat): (r: seq<seq<Option<nat>>>)
    ensures |r| == processes && NoFiles(r)
  {
    seq(processes, _ => seq(NR_FILES, _ => None))
  }

  /** The empty tables at the start, with the directory loaded. */
  ghost predicate Started(d: seq<Sector>, nSmap: nat, t: seq<Slot>)
    requires DataSect(nSmap) <= |d|
  {
    && |t| == NR_INODE && t[ROOT_SLOT] == Slot(1, ROOT_INODE, Inodes(d, InodeSect(nSmap))[0])
    && forall p | 0 < p < NR_INODE :: t[p].cnt == 0
  }

  ghost predicate NewDisk(d: seq<Sector>, nSmap: nat)
    requires DataSect(nSmap) <= |d|
  {
    FreshDisk(nSmap, Bits(d, IMAP_SECT, 1), Bits(d, SMAP_SECT, nSmap), Inodes(d, InodeSect(nSmap)), Dir(d, FirstSect(nSmap)))
  }

  /** The tables, zeroed, and the file system made on disk. */
  method StartTables(dev: Device, size: nat) returns (nSmap: nat, table: array<Slot>, fdt: array<Desc>)
    requires dev.Valid() && DataSect(MapSects(size)) <= dev.disk.Length && FirstSect(MapSects(size)) < LIMIT32 && size < LIMIT32
    requires RestZero(dev.disk[..], MapSects(size))
    modifies dev.disk, dev.fsbuf
    ensures fresh(table) && fresh(fdt) && table as object != fdt && nSmap == MapSects(size)
    ensures NewDisk(dev.disk[..], nSmap) && Started(dev.disk[..], nSmap, table[..])
    ensures NoDescs(fdt[..]) && HasSuper(dev.disk[..], size)
  {
    hide NewDisk, Started, RestZero, HasSuper;
    table := new Slot[NR_INODE](_ => Slot(0, 0, NO_FILE));
    fdt := new Desc[NR_FILE_DESC](_ => Desc(0, 0, None));
    nSmap := LoadRoot(dev, size, table);
  }

  /** Makes the file system, reads its super block back, and loads the inode of the directory. */
  method LoadRoot(dev: Device, size: nat, table: array<Slot>) returns (nSmap: nat)
    requires dev.Valid() && DataSect(MapSects(size)) <= dev.disk.Length && FirstSect(MapSects(size)) < LIMIT32 && size < LIMIT32
    requires RestZero(dev.disk[..], MapSects(size))
    requires table as object != dev.disk && table as object != dev.fsbuf
    requires table.Length == NR_INODE && forall p | 0 <= p < table.Length :: table[p] == Slot(0, 0, NO_FILE)
    modifies dev.disk, dev.fsbuf, table
    ensures nSmap == MapSects(size) && HasSuper(dev.disk[..], size)
    ensures NewDisk(dev.disk[..], nSmap) && Started(dev.disk[..], nSmap, table[..])
  {
    hide Bits, Inodes, Dir, FreshDisk, Get, SuperIn;
    ghost var t := table[..];
    MkFs(dev, size);
    var sb := ReadSuper(dev);
    assert sb.magic == MAGIC_V1;
    nSmap := sb.nrSmapSects;
    SuperLayout(size);
    var root := GetInode(dev, table, InodeSect(nSmap), ROOT_INODE);
    FirstGet(t, Inodes(dev.disk[..], InodeSect(nSmap)));
  }

  lemma FreshState(nSmap: nat, d: seq<Sector>, t: seq<Slot>, fdt: seq<Desc>, filp: seq<seq<Option<nat>>>)
    requires DataSect(nSmap) <= |d| && nSmap > 0 && FirstSect(nSmap) + nSmap * 4096 < LIMIT32
    requires NewDisk(d, nSmap) && Started(d, nSmap, t)
    requires NoDescs(fdt) && NoFiles(filp)
    ensures var fs := AsFs(nSmap, d, t, fdt, filp);
            Inv(fs) && Shape(fs) && IsNew(fs)
  {
    hide Bits, Inodes, Dir, FreshDisk, Inv, Shape, FlatFrom;
    FreshInv(AsFs(nSmap, d, t, fdt, filp));
  }

  /** The first inode that is loaded goes to the first slot. */
  lemma FirstGet(t: seq<Slot>, inodes: seq<Inode>)
    requires |t| == NR_INODE && |inodes| == NR_INODES && forall p | 0 <= p < |t| :: t[p] == Slot(0, 0, NO_FILE)
    ensures Get(t, inodes, ROOT_INODE).0 == t[ROOT_SLOT := Slot(1, ROOT_INODE, inodes[0])]
  {
    hide FindUsed, FindFree;
    assert t[ROOT_SLOT].cnt == 0;
    assert FindUsed(t, ROOT_INODE, |t|) < 0 && FindFree(t, |t|) == ROOT_SLOT;
  }
}
