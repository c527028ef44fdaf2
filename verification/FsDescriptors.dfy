/** Open files: which file a descriptor stands for, and where in it, over requests and runs. */
module FsDescriptors {
  import opened FsBits
  import opened FsMaps
  import opened FsInodes
  import opened FsDirectory
  import opened FsEntries
  import opened FsTransfer
  import opened FsState
  import opened FsInvariant
  import opened FsTables
  import opened FsCreate
  import opened FsRuns
  import opened FsStore
  import opened FsTheorems
  import opened FsReferences

  /** File f of process q is not open. */
  ghost predicate Closed(fs: Fs, q: nat, f: nat) {
    q < |fs.filp| && f < |fs.filp[q]| && fs.filp[q][f].None?
  }

  /** The open file is the same one, n bytes further on. */
  ghost predicate Kept(fs: Fs, fs': Fs, q: nat, f: nat, n: nat) {
    && ValidFd(fs, q, f) && IsOpen(fs, q, f) && ValidFd(fs', q, f) && IsOpen(fs', q, f)
    && DescOf(fs', q, f) == DescOf(fs, q, f).(pos := DescOf(fs, q, f).pos + n)
    && SlotOf(fs', q, f).num == SlotOf(fs, q, f).num
  }

  /** How many bytes an answer is about. */
  function Count(reply: Reply): nat {
    match reply
    case Bytes(bytes) => |bytes|
    case Written(n) => n
    case _ => 0
  }

  /** How many bytes of the open file the request is answered with. */
  ghost function Moved(fs: Fs, r: Request, q: nat, f: nat): nat
    requires Inv(fs) && Shape(fs) && Legal(fs, r)
  {
    if (r.Read? || r.Write?) && r.caller == q && r.fd == f then Count(Step(fs, r).1) else 0
  }

  // ---------------------------------------------------------------- one request

  /** The descriptor is as it was, but for its position. */
  lemma KeptBy(fs: Fs, r: Request, q: nat, f: nat, n: nat)
    requires Inv(fs) && Shape(fs) && Legal(fs, r) && Step(fs, r).1 != Panic && ValidFd(fs, q, f) && IsOpen(fs, q, f)
    requires var fs' := Step(fs, r).0;
             && Inv(fs') && Shape(fs') && ValidFd(fs', q, f) && fs'.filp[q][f] == fs.filp[q][f]
             && var d := fs.filp[q][f].value;
             d < |fs'.fdt| && fs'.fdt[d] == fs.fdt[d].(pos := fs.fdt[d].pos + n)
    ensures Kept(fs, Step(fs, r).0, q, f, n)
  {
    OpenFacts(fs, q, f);
    OpenFacts(Step(fs, r).0, q, f);
    hide Inv, Step, Legal;
    StepNumber(fs, r, DescOf(fs, q, f).slot.value);
  }

  /** The request could be served: what OpenFile relies on. */
  ghost predicate CanServe(fs: Fs, caller: nat, path: seq<byte>, flags: nat)
    requires Shape(fs)
  {
    && caller < |fs.filp| && ValidPath(path) && Lookup(fs, path) < MAP_BITS
    && (CreatesNew(fs, path, flags) ==> NameFits(fs, StripPath(path).name) && RoomLeft(fs) && HasRoom(fs))
  }

  lemma LegalServes(fs: Fs, caller: nat, path: seq<byte>, flags: nat)
    requires Inv(fs) && Shape(fs) && Legal(fs, Open(caller, path, flags))
    ensures CanServe(fs, caller, path, flags) && Step(fs, Open(caller, path, flags)) == OpenFile(fs, caller, path, flags)
  {
    LookupInUse(fs, path);
    if CreatesNew(fs, path, flags) {
      RoomLeftFacts(fs);
    }
    hide Inv, Lookup, OpenFile, RoomLeft, NameFits, HasRoom;
  }

  lemma OpenIs(fs: Fs, caller: nat, path: seq<byte>, flags: nat)
    requires Inv(fs) && Shape(fs) && CanServe(fs, caller, path, flags) && OpenFile(fs, caller, path, flags).1.Fd?
    ensures var r, o, d := OpenFile(fs, caller, path, flags), OpenInode(fs, path, flags), FreeDesc(fs.fdt, NR_FILE_DESC);
            && o.1.At? && r.1.fd == FreeFd(fs.filp[caller], NR_FILES) < NR_FILES && d < NR_FILE_DESC
            && caller < |o.0.filp| && r.1.fd < |o.0.filp[caller]| && d < |o.0.fdt|
            && r.0 == Attach(o.0, caller, r.1.fd, d, flags, o.1.p)
  {
    OpenInodeInv(fs, path, flags);
    InvShape(OpenInode(fs, path, flags).0);
    hide Inv, Lookup, OpenInode, RoomLeft, FreeFd, FreeDesc, CreatesNew, NameFits, HasRoom, Attach;
  }

  lemma OpenKept(fs: Fs, caller: nat, path: seq<byte>, flags: nat, q: nat, f: nat)
    requires Inv(fs) && Shape(fs) && Legal(fs, Open(caller, path, flags)) && Step(fs, Open(caller, path, flags)).1 != Panic
    requires ValidFd(fs, q, f) && IsOpen(fs, q, f)
    requires Inv(Step(fs, Open(caller, path, flags)).0) && Shape(Step(fs, Open(caller, path, flags)).0)
    requires var fs' := Step(fs, Open(caller, path, flags)).0;
             && ValidFd(fs', q, f) && fs'.filp[q][f] == fs.filp[q][f]
             && fs.filp[q][f].value < |fs'.fdt| && fs'.fdt[fs.filp[q][f].value] == fs.fdt[fs.filp[q][f].value]
    ensures Kept(fs, Step(fs, Open(caller, path, flags)).0, q, f, 0)
  {
    var d := fs.filp[q][f].value;
    assert fs.fdt[d].(pos := fs.fdt[d].pos + 0) == fs.fdt[d];
    hide Inv, Step, Legal;
    KeptBy(fs, Open(caller, path, flags), q, f, 0);
  }

  lemma OpenFails(fs: Fs, caller: nat, path: seq<byte>, flags: nat)
    requires Inv(fs) && Shape(fs) && CanServe(fs, caller, path, flags) && OpenFile(fs, caller, path, flags).1 == Failed
    ensures OpenFile(fs, caller, path, flags).0.filp == fs.filp && OpenFile(fs, caller, path, flags).0.fdt == fs.fdt
  {
    OpenInodeInv(fs, path, flags);
    hide Inv, Lookup, OpenInode, RoomLeft, FreeFd, FreeDesc, CreatesNew, NameFits, HasRoom, Attach;
  }

  lemma OpenReplies(fs: Fs, caller: nat, path: seq<byte>, flags: nat)
    requires Inv(fs) && Shape(fs) && CanServe(fs, caller, path, flags)
    ensures var reply := OpenFile(fs, caller, path, flags).1; reply.Fd? || reply == Failed || reply == Panic
  {
    hide Inv, Lookup, OpenInode, RoomLeft, FreeFd, FreeDesc, CreatesNew, NameFits, HasRoom, Attach;
  }

  /** At most one closed file has been connected, with a descriptor that was free. */
  ghost predicate Placed(fs: Fs, fs': Fs, caller: nat, reply: Reply) {
    if reply.Fd? then
      && Closed(fs, caller, reply.fd) && |fs'.filp| == |fs.filp|
      && (forall q: nat | q < |fs.filp| :: |fs'.filp[q]| == |fs.filp[q]|)
      && (forall q: nat, f: nat | q < |fs.filp| && f < |fs.filp[q]| && !(q == caller && f == reply.fd) :: fs'.filp[q][f] == fs.filp[q][f])
      && exists d :: 0 <= d < |fs.fdt| == |fs'.fdt| && fs.fdt[d].slot.None? && fs'.fdt == fs.fdt[d := fs'.fdt[d]]
    else fs'.filp == fs.filp && fs'.fdt == fs.fdt
  }

  lemma OpenPlaces(fs: Fs, caller: nat, path: seq<byte>, flags: nat)
    requires Inv(fs) && Shape(fs) && CanServe(fs, caller, path, flags) && OpenFile(fs, caller, path, flags).1 != Panic
    ensures Placed(fs, OpenFile(fs, caller, path, flags).0, caller, OpenFile(fs, caller, path, flags).1)
  {
    OpenReplies(fs, caller, path, flags);
    if OpenFile(fs, caller, path, flags).1 == Failed {
      OpenFails(fs, caller, path, flags);
      hide Inv, CanServe, OpenFile, Lookup;
    } else {
      OpenIs(fs, caller, path, flags);
      OpenInodeInv(fs, path, flags);
      hide Inv, CanServe, OpenInode, OpenFile, Lookup, FreeFd, FreeDesc, Attach, Placed, References;
      var o := OpenInode(fs, path, flags);
      AttachPlaces(fs, o.0, caller, FreeFd(fs.filp[caller], NR_FILES), FreeDesc(fs.fdt, NR_FILE_DESC), flags, o.1.p);
    }
  }

  lemma AttachPlaces(fs: Fs, o: Fs, caller: nat, fd: nat, d: nat, flags: nat, p: nat)
    requires o.filp == fs.filp && o.fdt == fs.fdt && Closed(fs, caller, fd) && d < |fs.fdt| && fs.fdt[d].slot.None?
    ensures Placed(fs, Attach(o, caller, fd, d, flags, p), caller, Fd(fd))
  {}

  lemma PlacedElsewhere(fs: Fs, fs': Fs, caller: nat, reply: Reply, q: nat, f: nat)
    requires Placed(fs, fs', caller, reply) && ValidFd(fs, q, f) && fs.filp[q][f].value < |fs.fdt|
    requires fs.fdt[fs.filp[q][f].value].slot.Some?
    ensures ValidFd(fs', q, f) && fs'.filp[q][f] == fs.filp[q][f] && |fs'.fdt| == |fs.fdt|
    ensures fs'.fdt[fs.filp[q][f].value] == fs.fdt[fs.filp[q][f].value]
  {}

  /** Files that are open stay as they are when one is opened, and no other file is opened. */
  lemma OpenOthers(fs: Fs, caller: nat, path: seq<byte>, flags: nat, q: nat, f: nat)
    requires Inv(fs) && Shape(fs) && Legal(fs, Open(caller, path, flags)) && Step(fs, Open(caller, path, flags)).1 != Panic
    requires Inv(Step(fs, Open(caller, path, flags)).0) && Shape(Step(fs, Open(caller, path, flags)).0)
    ensures |Step(fs, Open(caller, path, flags)).0.filp| == |fs.filp|
    ensures ValidFd(fs, q, f) ==> Kept(fs, Step(fs, Open(caller, path, flags)).0, q, f, 0)
    ensures Closed(fs, q, f) && !(q == caller && Step(fs, Open(caller, path, flags)).1 == Fd(f)) ==>
              Closed(Step(fs, Open(caller, path, flags)).0, q, f)
  {
    LegalServes(fs, caller, path, flags);
    hide Inv, Step, Legal, CanServe, OpenFile, Kept;
    OpenPlaces(fs, caller, path, flags);
    if ValidFd(fs, q, f) {
      OpenFacts(fs, q, f);
      PlacedElsewhere(fs, OpenFile(fs, caller, path, flags).0, caller, OpenFile(fs, caller, path, flags).1, q, f);
      hide Placed;
      OpenKept(fs, caller, path, flags, q, f);
    }
  }

  /** What has been opened is the lowest file that was closed. It is at its start, with the mode
      that was asked for, and the inode is the one that the path stands for now. */
  ghost predicate Fresh(fs: Fs, fs': Fs, q: nat, f: nat, path: seq<byte>, flags: nat)
    requires Shape(fs')
  {
    && Closed(fs, q, f) && (forall i: nat | i < f :: !Closed(fs, q, i))
    && ValidFd(fs', q, f) && IsOpen(fs', q, f)
    && DescOf(fs', q, f).pos == 0 && DescOf(fs', q, f).mode == flags
    && SlotOf(fs', q, f).num == Lookup(fs', path) != 0
  }

  /** The slot that an open request gets has the inode that the path stands for. */
  lemma OpenInodeNumber(fs: Fs, path: seq<byte>, flags: nat)
    requires Inv(fs) && Shape(fs) && ValidPath(path) && Lookup(fs, path) < MAP_BITS && OpenInode.requires(fs, path, flags)
    requires CreatesNew(fs, path, flags) ==> NameFits(fs, StripPath(path).name) && RoomLeft(fs) && HasRoom(fs)
    requires OpenInode(fs, path, flags).1.At?
    ensures var r := OpenInode(fs, path, flags);
            && Inv(r.0) && Shape(r.0) && r.1.p < NR_INODE && r.0.table[r.1.p].num == Lookup(r.0, path) != 0
  {
    OpenInodeInv(fs, path, flags);
    var r := OpenInode(fs, path, flags);
    InvShape(r.0);
    RootFacts(fs);
    RootFacts(r.0);
    if CreatesNew(fs, path, flags) {
      NewNumber(fs, StripPath(path).name, path);
    } else {
      hide Inv, Search;
      GetNothing(fs.table, fs.inodes, Lookup(fs, path));
      LookupInUse(fs, path);
      GetInv(fs, Lookup(fs, path));
    }
  }

  lemma NewNumber(fs: Fs, name: seq<byte>, path: seq<byte>)
    requires Inv(fs) && Shape(fs) && ValidPath(path) && StripPath(path) == Name(name) && Lookup(fs, path) == 0
    requires NameFits(fs, name) && RoomLeft(fs) && HasRoom(fs) && CreateFile(fs, name).1.At?
    requires Inv(CreateFile(fs, name).0) && Shape(CreateFile(fs, name).0)
    ensures var r := CreateFile(fs, name); r.1.p < NR_INODE && r.0.table[r.1.p].num == Lookup(r.0, path) != 0
  {
    CreateFacts(fs, name, path);
    RootFacts(fs);
    var r := CreateFile(fs, name);
    var nr, s := FirstFree(fs.imapBits), FirstFree(fs.smapBits) / FILE_SECTS;
    hide CreateFile, RoomLeft, HasRoom, FirstFree;
    CreatedEntry(fs, name, nr, s, r.1.p);
    hide Inv, Created, CanCreate, Lookup, StripPath;
    LookupOfName(r.0, path);
    LookupEntry(r.0, name, FirstUnused(fs.dir, DirSize(fs.table) / 16));
  }

  lemma CreatedEntry(fs: Fs, name: seq<byte>, nr: nat, s: nat, p: nat)
    requires Inv(fs) && Shape(fs) && CanCreate(fs, name, nr, s, p) && 1 + FILE_SECTS * s + FILE_SECTS <= |fs.smapBits|
    requires fs.table[ROOT_SLOT].num == ROOT_INODE
    ensures GoodName(name)
    ensures var fs', e := Created(fs, fs.table, name, nr, 1 + FILE_SECTS * s, p), FirstUnused(fs.dir, DirSize(fs.table) / 16);
            Names(fs'.dir, e, name) && fs'.dir[e].nr == nr && |fs'.table| == NR_INODE && p < NR_INODE && fs'.table[p].num == nr
  {
    NewEntry(fs.dir, DirSize(fs.table), nr, name);
    hide Inv, AddName, FirstUnused, GrownSize, SetRange, Taken, Unused, Padded;
  }

  lemma AttachedFresh(fs: Fs, o: Fs, caller: nat, fd: nat, d: nat, flags: nat, p: nat, path: seq<byte>)
    requires Shape(fs) && Shape(o) && caller < |o.filp| && fd < |o.filp[caller]| && d < |o.fdt| && o.filp == fs.filp
    requires fd == FreeFd(fs.filp[caller], NR_FILES) < NR_FILES && p < NR_INODE && o.table[p].num == Lookup(o, path) != 0
    requires var fs' := Attach(o, caller, fd, d, flags, p); Shape(fs') && IsOpen(fs', caller, fd)
    ensures Fresh(fs, Attach(o, caller, fd, d, flags, p), caller, fd, path, flags)
  {
    var fs' := Attach(o, caller, fd, d, flags, p);
    assert Lookup(fs', path) == Lookup(o, path);
    hide Lookup, FreeFd;
  }

  /** What a successful request to open a file leads to. */
  lemma OpenFresh(fs: Fs, caller: nat, path: seq<byte>, flags: nat)
    requires Inv(fs) && Shape(fs) && Legal(fs, Open(caller, path, flags)) && Step(fs, Open(caller, path, flags)).1.Fd?
    requires Inv(Step(fs, Open(caller, path, flags)).0) && Shape(Step(fs, Open(caller, path, flags)).0)
    ensures var r := Step(fs, Open(caller, path, flags)); Fresh(fs, r.0, caller, r.1.fd, path, flags)
  {
    LegalServes(fs, caller, path, flags);
    OpenIs(fs, caller, path, flags);
    hide Inv, Lookup, OpenInode, RoomLeft, CreatesNew, NameFits, HasRoom, Legal, Step, OpenFile, FreeFd, FreeDesc, Attach, Fresh;
    OpenInodeNumber(fs, path, flags);
    OpenInodeInv(fs, path, flags);
    var r, o := OpenFile(fs, caller, path, flags), OpenInode(fs, path, flags);
    AttachedOpen(o.0, caller, r.1.fd, FreeDesc(fs.fdt, NR_FILE_DESC), flags, o.1.p);
    AttachedFresh(fs, o.0, caller, r.1.fd, FreeDesc(fs.fdt, NR_FILE_DESC), flags, o.1.p, path);
  }

  lemma AttachedOpen(o: Fs, caller: nat, fd: nat, d: nat, flags: nat, p: nat)
    requires caller < |o.filp| && fd < |o.filp[caller]| && d < |o.fdt|
    requires var fs' := Attach(o, caller, fd, d, flags, p); Inv(fs') && Shape(fs')
    ensures IsOpen(Attach(o, caller, fd, d, flags, p), caller, fd)
  {
    OpenFacts(Attach(o, caller, fd, d, flags, p), caller, fd);
  }

  // ---------------------------------------------------------------- the other requests

  lemma CloseOthers(fs: Fs, caller: nat, fd: nat, q: nat, f: nat)
    requires Inv(fs) && Shape(fs) && Legal(fs, Close(caller, fd))
    requires Inv(Step(fs, Close(caller, fd)).0) && Shape(Step(fs, Close(caller, fd)).0)
    ensures |Step(fs, Close(caller, fd)).0.filp| == |fs.filp| && Closed(Step(fs, Close(caller, fd)).0, caller, fd)
    ensures ValidFd(fs, q, f) && !(q == caller && f == fd) ==> Kept(fs, Step(fs, Close(caller, fd)).0, q, f, 0)
    ensures Closed(fs, q, f) ==> Closed(Step(fs, Close(caller, fd)).0, q, f)
  {
    OpenFacts(fs, caller, fd);
    var fs' := CloseFile(fs, caller, fd);
    if ValidFd(fs, q, f) && !(q == caller && f == fd) {
      OpenFacts(fs, q, f);
      NotShared(fs, caller, fd, q, f);
      var d := fs.filp[q][f].value;
      assert fs.fdt[d].(pos := fs.fdt[d].pos + 0) == fs.fdt[d];
      hide Inv, Legal;
      KeptBy(fs, Close(caller, fd), q, f, 0);
    }
  }

  /** Different open files have different descriptors. */
  lemma NotShared(fs: Fs, q: nat, f: nat, q': nat, f': nat)
    requires Inv(fs) && ValidFd(fs, q, f) && ValidFd(fs, q', f') && !(q == q' && f == f')
    ensures fs.filp[q][f] != fs.filp[q'][f']
  {
    assert Holds(fs.filp, q, f, fs.filp[q][f].value);
    assert Holds(fs.filp, q', f', fs.filp[q'][f'].value);
  }

  /** One descriptor has moved on by n bytes, and all else is as it was. */
  ghost predicate MovedBy(fs: Fs, fs': Fs, caller: nat, fd: nat, n: nat)
    requires IsOpen(fs, caller, fd)
  {
    var d := fs.filp[caller][fd].value;
    fs'.filp == fs.filp && fs'.fdt == fs.fdt[d := fs.fdt[d].(pos := fs.fdt[d].pos + n)]
  }

  lemma NotMoved(fs: Fs, caller: nat, fd: nat)
    requires IsOpen(fs, caller, fd)
    ensures MovedBy(fs, fs, caller, fd, 0)
  {
    var d := fs.filp[caller][fd].value;
    assert fs.fdt[d].(pos := fs.fdt[d].pos + 0) == fs.fdt[d];
    assert fs.fdt[d := fs.fdt[d]] == fs.fdt;
  }

  lemma AdvanceMoves(fs: Fs, data: seq<byte>, caller: nat, fd: nat, n: nat)
    requires Shape(fs) && IsOpen(fs, caller, fd) && 0 < SlotOf(fs, caller, fd).num <= NR_INODES
    ensures MovedBy(fs, Advance(fs.(data := data), caller, fd, n), caller, fd, n)
  {}

  lemma ReadMoves(fs: Fs, caller: nat, fd: nat, len: nat)
    requires Shape(fs) && IsOpen(fs, caller, fd) && 0 < SlotOf(fs, caller, fd).num <= NR_INODES
    requires ReadsAndWrites(DescOf(fs, caller, fd).mode) ==> InExtent(fs, caller, fd, ReadCount(fs, caller, fd, len))
    ensures ReadFile(fs, caller, fd, len).1 != Panic
    ensures MovedBy(fs, ReadFile(fs, caller, fd, len).0, caller, fd, Count(ReadFile(fs, caller, fd, len).1))
  {
    AdvanceMoves(fs, fs.data, caller, fd, ReadCount(fs, caller, fd, len));
    NotMoved(fs, caller, fd);
    assert fs.(data := fs.data) == fs;
    hide Advance, Cut, Transferred, MovedBy;
  }

  lemma WriteMoves(fs: Fs, caller: nat, fd: nat, bytes: seq<byte>)
    requires Shape(fs) && IsOpen(fs, caller, fd) && 0 < SlotOf(fs, caller, fd).num <= NR_INODES
    requires ReadsAndWrites(DescOf(fs, caller, fd).mode) ==> InExtent(fs, caller, fd, |bytes|)
    ensures WriteFile(fs, caller, fd, bytes).1 != Panic
    ensures MovedBy(fs, WriteFile(fs, caller, fd, bytes).0, caller, fd, Count(WriteFile(fs, caller, fd, bytes).1))
  {
    NotMoved(fs, caller, fd);
    if ReadsAndWrites(DescOf(fs, caller, fd).mode) {
      var a := Base(fs.nSmap, SlotOf(fs, caller, fd).ino) + DescOf(fs, caller, fd).pos;
      AdvanceMoves(fs, Put(fs.data, a, bytes), caller, fd, |bytes|);
    }
    hide Advance, Put, MovedBy;
  }

  lemma MovedAt(fs: Fs, fs': Fs, caller: nat, fd: nat, n: nat, q: nat, f: nat)
    requires IsOpen(fs, caller, fd) && MovedBy(fs, fs', caller, fd, n) && IsOpen(fs, q, f)
    requires (q == caller && f == fd) || fs.filp[q][f] != fs.filp[caller][fd]
    ensures var d := fs.filp[q][f].value;
            && fs'.filp == fs.filp && |fs'.fdt| == |fs.fdt|
            && fs'.fdt[d] == fs.fdt[d].(pos := fs.fdt[d].pos + if q == caller && f == fd then n else 0)
  {
    var x := fs.fdt[fs.filp[q][f].value];
    assert x.(pos := x.pos + 0) == x;
  }

  lemma MoveKept(fs: Fs, r: Request, q: nat, f: nat)
    requires Inv(fs) && Shape(fs) && Legal(fs, r) && (r.Read? || r.Write?) && Step(fs, r).1 != Panic
    requires Inv(Step(fs, r).0) && Shape(Step(fs, r).0) && IsOpen(fs, r.caller, r.fd) && ValidFd(fs, r.caller, r.fd)
    requires MovedBy(fs, Step(fs, r).0, r.caller, r.fd, Count(Step(fs, r).1)) && ValidFd(fs, q, f)
    ensures Kept(fs, Step(fs, r).0, q, f, Moved(fs, r, q, f))
  {
    hide Inv, Step, Legal, Count, Kept, MovedBy, Shape;
    OpenFacts(fs, q, f);
    if !(q == r.caller && f == r.fd) {
      NotShared(fs, q, f, r.caller, r.fd);
    }
    MovedAt(fs, Step(fs, r).0, r.caller, r.fd, Count(Step(fs, r).1), q, f);
    KeptBy(fs, r, q, f, Moved(fs, r, q, f));
  }

  lemma MoveOthers(fs: Fs, r: Request, q: nat, f: nat)
    requires Inv(fs) && Shape(fs) && Legal(fs, r) && (r.Read? || r.Write?)
    requires Inv(Step(fs, r).0) && Shape(Step(fs, r).0)
    ensures |Step(fs, r).0.filp| == |fs.filp|
    ensures ValidFd(fs, q, f) ==> Kept(fs, Step(fs, r).0, q, f, Moved(fs, r, q, f))
    ensures Closed(fs, q, f) ==> Closed(Step(fs, r).0, q, f)
  {
    OpenFacts(fs, r.caller, r.fd);
    if r.Read? {
      ReadMoves(fs, r.caller, r.fd, r.len);
    } else {
      WriteMoves(fs, r.caller, r.fd, r.bytes);
    }
    hide Inv, ReadFile, WriteFile, Kept, Moved, Count;
    if ValidFd(fs, q, f) {
      MoveKept(fs, r, q, f);
    }
  }

  lemma UnlinkPlaces(fs: Fs, path: seq<byte>)
    requires Shape(fs) && Consistent(fs, path)
    ensures UnlinkFile(fs, path).0.filp == fs.filp && UnlinkFile(fs, path).0.fdt == fs.fdt
  {
    hide Lookup, Get, SetRange, ShrunkSize, FirstWith;
  }

  lemma UnlinkOthers(fs: Fs, path: seq<byte>, q: nat, f: nat)
    requires Inv(fs) && Shape(fs) && Legal(fs, Unlink(path)) && Step(fs, Unlink(path)).1 != Panic
    requires Inv(Step(fs, Unlink(path)).0) && Shape(Step(fs, Unlink(path)).0)
    ensures |Step(fs, Unlink(path)).0.filp| == |fs.filp|
    ensures ValidFd(fs, q, f) ==> Kept(fs, Step(fs, Unlink(path)).0, q, f, 0)
    ensures Closed(fs, q, f) ==> Closed(Step(fs, Unlink(path)).0, q, f)
  {
    StepUnlink(fs, path);
    UnlinkPlaces(fs, path);
    if ValidFd(fs, q, f) {
      OpenFacts(fs, q, f);
      var d := fs.filp[q][f].value;
      assert fs.fdt[d].(pos := fs.fdt[d].pos + 0) == fs.fdt[d];
      hide Inv, Step, Legal, UnlinkFile, Consistent;
      KeptBy(fs, Unlink(path), q, f, 0);
    }
  }

  // ---------------------------------------------------------------- every request

  /** What a request does to file f of process q: closing it closes it, opening it opens the file
      that the path stands for, reading and writing it moves it on by as many bytes as the answer
      says, and nothing else does anything to it. */
  ghost predicate FileAfter(fs: Fs, r: Request, q: nat, f: nat)
    requires Inv(fs) && Shape(fs) && Legal(fs, r) && Shape(Step(fs, r).0)
  {
    var fs' := Step(fs, r).0;
    if r == Close(q, f) then Closed(fs', q, f)
    else if ValidFd(fs, q, f) then Kept(fs, fs', q, f, Moved(fs, r, q, f))
    else if r.Open? && r.caller == q && Step(fs, r).1 == Fd(f) then Fresh(fs, fs', q, f, r.path, r.flags)
    else Closed(fs', q, f)
  }

  lemma OpenAfter(fs: Fs, caller: nat, path: seq<byte>, flags: nat, q: nat, f: nat)
    requires Inv(fs) && Shape(fs) && Legal(fs, Open(caller, path, flags)) && Step(fs, Open(caller, path, flags)).1 != Panic
    requires q < |fs.filp| && f < |fs.filp[q]|
    requires Inv(Step(fs, Open(caller, path, flags)).0) && Shape(Step(fs, Open(caller, path, flags)).0)
    ensures |Step(fs, Open(caller, path, flags)).0.filp| == |fs.filp| && FileAfter(fs, Open(caller, path, flags), q, f)
  {
    hide Inv, Step, Legal, Kept, Fresh, Lookup;
    OpenOthers(fs, caller, path, flags, q, f);
    if Step(fs, Open(caller, path, flags)).1.Fd? {
      OpenFresh(fs, caller, path, flags);
    }
  }

  lemma CloseAfter(fs: Fs, caller: nat, fd: nat, q: nat, f: nat)
    requires Inv(fs) && Shape(fs) && Legal(fs, Close(caller, fd)) && q < |fs.filp| && f < |fs.filp[q]|
    requires Inv(Step(fs, Close(caller, fd)).0) && Shape(Step(fs, Close(caller, fd)).0)
    ensures |Step(fs, Close(caller, fd)).0.filp| == |fs.filp| && FileAfter(fs, Close(caller, fd), q, f)
  {
    hide Inv, Step, Legal, Kept, Fresh, Lookup;
    CloseOthers(fs, caller, fd, q, f);
  }

  lemma MoveAfter(fs: Fs, r: Request, q: nat, f: nat)
    requires Inv(fs) && Shape(fs) && Legal(fs, r) && (r.Read? || r.Write?) && q < |fs.filp| && f < |fs.filp[q]|
    requires Inv(Step(fs, r).0) && Shape(Step(fs, r).0)
    ensures |Step(fs, r).0.filp| == |fs.filp| && FileAfter(fs, r, q, f)
  {
    hide Inv, Step, Legal, Kept, Fresh, Lookup, Count;
    MoveOthers(fs, r, q, f);
  }

  lemma UnlinkAfter(fs: Fs, path: seq<byte>, q: nat, f: nat)
    requires Inv(fs) && Shape(fs) && Legal(fs, Unlink(path)) && Step(fs, Unlink(path)).1 != Panic
    requires Inv(Step(fs, Unlink(path)).0) && Shape(Step(fs, Unlink(path)).0) && q < |fs.filp| && f < |fs.filp[q]|
    ensures |Step(fs, Unlink(path)).0.filp| == |fs.filp| && FileAfter(fs, Unlink(path), q, f)
  {
    hide Inv, Step, Legal, Kept, Fresh, Lookup;
    UnlinkOthers(fs, path, q, f);
  }

  lemma StepFiles(fs: Fs, r: Request, q: nat, f: nat)
    requires Inv(fs) && Shape(fs) && Legal(fs, r) && Step(fs, r).1 != Panic && q < |fs.filp| && f < NR_FILES
    requires Inv(Step(fs, r).0) && Shape(Step(fs, r).0)
    ensures |Step(fs, r).0.filp| == |fs.filp| && FileAfter(fs, r, q, f)
  {
    assert |fs.filp[q]| == NR_FILES;
    hide Inv, Step, Legal, Shape, FileAfter;
    match r {
      case Open(caller, path, flags) => OpenAfter(fs, caller, path, flags, q, f);
      case Close(caller, fd) => CloseAfter(fs, caller, fd, q, f);
      case Read(_, _, _) => MoveAfter(fs, r, q, f);
      case Write(_, _, _) => MoveAfter(fs, r, q, f);
      case Unlink(path) => UnlinkAfter(fs, path, q, f);
    }
  }
}
