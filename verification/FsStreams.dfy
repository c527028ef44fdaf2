/** Files as streams, over runs of requests: a file that is opened is read from its start, what is
    read or written next follows what was read or written before, and a name keeps its inode. */
module FsStreams {
  import opened FsBits
  import opened FsMaps
  import opened FsInodes
  import opened FsDirectory
  import opened FsEntries
  import opened FsTransfer
  import opened FsState
  import opened FsInvariant
  import opened FsTables
  import opened FsCreate
  import opened FsRuns
  import opened FsStore
  import opened FsRefine
  import opened FsTheorems
  import opened FsNames
  import opened FsDescriptors

  // ---------------------------------------------------------------- positions

  /** How many bytes of the open file the requests of the run are answered with. */
  ghost function MovedIn(fs: Fs, rs: seq<Request>, q: nat, f: nat): nat
    requires Inv(fs) && Shape(fs) && LegalRun(fs, rs)
    decreases |rs|
  {
    if rs == [] || Step(fs, rs[0]).1 == Panic then 0
    else
      StepInv(fs, rs[0]);
      Moved(fs, rs[0], q, f) + MovedIn(Step(fs, rs[0]).0, rs[1..], q, f)
  }

  lemma KeptOn(a: Fs, b: Fs, c: Fs, q: nat, f: nat, n: nat, m: nat)
    requires Kept(a, b, q, f, n) && Kept(b, c, q, f, m)
    ensures Kept(a, c, q, f, n + m)
  {}

  lemma KeptStill(fs: Fs, q: nat, f: nat)
    requires Inv(fs) && Shape(fs) && ValidFd(fs, q, f)
    ensures Kept(fs, fs, q, f, 0)
  {
    OpenFacts(fs, q, f);
    var x := DescOf(fs, q, f);
    assert x.(pos := x.pos + 0) == x;
  }

  /** Over any run in which it is not closed, an open file stays the same one, and its position
      moves on by exactly the bytes that were read from it and written to it through it. */
  lemma {:induction false} RunPosition(fs: Fs, rs: seq<Request>, q: nat, f: nat)
    requires Inv(fs) && Shape(fs) && LegalRun(fs, rs) && ValidFd(fs, q, f) && Close(q, f) !in rs
    ensures Kept(fs, Exec(fs, rs), q, f, MovedIn(fs, rs, q, f))
    decreases |rs|
  {
    assert f < NR_FILES;
    hide Inv, Step, Legal, Shape, Kept;
    KeptStill(fs, q, f);
    if rs != [] && Step(fs, rs[0]).1 != Panic {
      StepInv(fs, rs[0]);
      StepFiles(fs, rs[0], q, f);
      var fs1 := Step(fs, rs[0]).0;
      KeptValid(fs, fs1, q, f, Moved(fs, rs[0], q, f));
      RunPosition(fs1, rs[1..], q, f);
      KeptOn(fs, fs1, Exec(fs1, rs[1..]), q, f, Moved(fs, rs[0], q, f), MovedIn(fs1, rs[1..], q, f));
    }
  }

  lemma KeptValid(fs: Fs, fs': Fs, q: nat, f: nat, n: nat)
    requires Kept(fs, fs', q, f, n)
    ensures ValidFd(fs', q, f) && IsOpen(fs', q, f)
  {}

  /** No request of the run closes the open file, or moves it. */
  predicate LeavesAlone(rs: seq<Request>, q: nat, f: nat) {
    forall i | 0 <= i < |rs| ::
      (rs[i].Close? || rs[i].Read? || rs[i].Write?) ==> !(rs[i].caller == q && rs[i].fd == f)
  }

  lemma {:induction false} NothingMoved(fs: Fs, rs: seq<Request>, q: nat, f: nat)
    requires Inv(fs) && Shape(fs) && LegalRun(fs, rs) && LeavesAlone(rs, q, f)
    ensures MovedIn(fs, rs, q, f) == 0
    decreases |rs|
  {
    hide Inv, Step, Legal, Shape;
    if rs != [] && Step(fs, rs[0]).1 != Panic {
      StepInv(fs, rs[0]);
      assert forall i | 0 <= i < |rs[1..]| :: rs[1..][i] == rs[i + 1];
      NothingMoved(Step(fs, rs[0]).0, rs[1..], q, f);
    }
  }

  /** Then it stays where it is. */
  lemma LeftAlone(fs: Fs, rs: seq<Request>, q: nat, f: nat)
    requires Inv(fs) && Shape(fs) && LegalRun(fs, rs) && ValidFd(fs, q, f) && LeavesAlone(rs, q, f)
    ensures Kept(fs, Exec(fs, rs), q, f, 0)
  {
    NothingMoved(fs, rs, q, f);
    RunPosition(fs, rs, q, f);
  }

  // ---------------------------------------------------------------- names

  lemma SameDirLookup(fs: Fs, fs': Fs, name: seq<byte>)
    requires Shape(fs) && Shape(fs') && fs'.dir == fs.dir && DirSize(fs'.table) == DirSize(fs.table)
    requires fs'.table[ROOT_SLOT].num == fs.table[ROOT_SLOT].num
    ensures Lookup(fs', name) == Lookup(fs, name)
  {}

  lemma GotLookup(fs: Fs, nr: nat, name: seq<byte>)
    requires Inv(fs) && Shape(fs) && 0 < nr < MAP_BITS && fs.imapBits[nr] && Get(fs.table, fs.inodes, nr).1.At?
    ensures var fs' := fs.(table := Get(fs.table, fs.inodes, nr).0); Shape(fs') && Lookup(fs', name) == Lookup(fs, name)
  {
    GetInv(fs, nr);
    RootFacts(fs);
    RootFacts(fs.(table := Get(fs.table, fs.inodes, nr).0));
    hide Inv, Get;
    SameDirLookup(fs, fs.(table := Get(fs.table, fs.inodes, nr).0), name);
  }

  lemma OpenOldLookup(fs: Fs, caller: nat, path: seq<byte>, flags: nat, name: seq<byte>)
    requires Inv(fs) && Shape(fs) && CanServe(fs, caller, path, flags) && !CreatesNew(fs, path, flags)
    requires Shape(OpenFile(fs, caller, path, flags).0)
    ensures Lookup(OpenFile(fs, caller, path, flags).0, name) == Lookup(fs, name)
  {
    var nr := Lookup(fs, path);
    LookupInUse(fs, path);
    GetNothing(fs.table, fs.inodes, nr);
    if nr != 0 && Get(fs.table, fs.inodes, nr).1.At? {
      GotLookup(fs, nr, name);
    }
    hide Inv, Get, Search, StripPath, FreeFd, FreeDesc, NameFits, RoomLeft, HasRoom;
  }

  lemma OpenNewLookup(fs: Fs, caller: nat, path: seq<byte>, flags: nat, name: seq<byte>)
    requires Inv(fs) && Shape(fs) && Legal(fs, Open(caller, path, flags)) && CreatesNew(fs, path, flags) && GoodName(name)
    requires Step(fs, Open(caller, path, flags)).1.Fd? && StripPath(path).name != name
    requires Inv(Step(fs, Open(caller, path, flags)).0) && Shape(Step(fs, Open(caller, path, flags)).0)
    ensures Lookup(Step(fs, Open(caller, path, flags)).0, name) == Lookup(fs, name)
  {
    var made, e, nr := StripPath(path).name, FirstUnused(fs.dir, DirSize(fs.table) / 16), FirstFree(fs.imapBits);
    OpenedDir(fs, caller, path, flags);
    LookupUnused(fs, path);
    RoomLeftFacts(fs);
    assert DirOk(fs.dir, DirSize(fs.table));
    NewEntry(fs.dir, DirSize(fs.table), nr, made);
    if Padded(made) == Padded(name) {
      PaddedInjective(made, name);
    }
    hide Inv, Opened, AddName, FirstUnused, Search, FirstFree, RoomLeft, HasRoom, Padded, DirOk;
    LookupSame(fs, Opened(fs, caller, path, flags).0, name, e, Entry(nr, Padded(made)));
  }

  lemma MoveLookup(fs: Fs, data: seq<byte>, caller: nat, fd: nat, n: nat, name: seq<byte>)
    requires Inv(fs) && Shape(fs) && ValidFd(fs, caller, fd) && IsOpen(fs, caller, fd) && InExtent(fs, caller, fd, n)
    requires |data| == |fs.data| && 0 < SlotOf(fs, caller, fd).num < MAP_BITS
    requires Shape(Advance(fs.(data := data), caller, fd, n))
    ensures Lookup(Advance(fs.(data := data), caller, fd, n), name) == Lookup(fs, name)
  {
    DataIrrelevant(fs, data);
    AdvanceFacts(fs.(data := data), caller, fd, n);
    hide Inv, Advance;
    SameDirLookup(fs, Advance(fs.(data := data), caller, fd, n), name);
  }

  lemma UnlinkLookup(fs: Fs, path: seq<byte>, name: seq<byte>)
    requires Inv(fs) && Shape(fs) && Legal(fs, Unlink(path)) && GoodName(name) && Step(fs, Unlink(path)).1 != Panic
    requires !(StripPath(path) == Name(name) && Step(fs, Unlink(path)).1 == Done)
    requires Inv(Step(fs, Unlink(path)).0) && Shape(Step(fs, Unlink(path)).0)
    ensures Lookup(Step(fs, Unlink(path)).0, name) == Lookup(fs, name)
  {
    StepUnlink(fs, path);
    LookupInUse(fs, path);
    var nr := Lookup(fs, path);
    if Unlinked(fs, path).1 == Done {
      UnlinkedDir(fs, path);
      UnlinkedName(fs, path);
      var e := EntryOf(fs, nr);
      if Padded(StripPath(path).name) == Padded(name) {
        PaddedInjective(StripPath(path).name, name);
      }
      hide Inv, Legal, Step, UnlinkFile, Search, Padded, EntryOf, Consistent;
      LookupSame(fs, Unlinked(fs, path).0, name, e, NO_ENTRY);
    } else {
      if nr != 0 && Get(fs.table, fs.inodes, nr).1.At? {
        GotLookup(fs, nr, name);
      }
      hide Inv, Legal, Search, Get, Consistent, StripPath;
    }
  }

  /** A name keeps its inode, whatever happens, unless its file is made or removed. */
  lemma StepLookup(fs: Fs, r: Request, name: seq<byte>)
    requires Inv(fs) && Shape(fs) && Legal(fs, r) && GoodName(name) && Step(fs, r).1 != Panic
    requires Inv(Step(fs, r).0) && Shape(Step(fs, r).0) && !MakesNew(fs, r, name) && !Deletes(fs, r, name)
    ensures Lookup(Step(fs, r).0, name) == Lookup(fs, name)
  {
    hide Inv, Lookup, OpenFile, UnlinkFile;
    match r {
      case Open(caller, path, flags) =>
        LegalServes(fs, caller, path, flags);
        if CreatesNew(fs, path, flags) {
          NewReplies(fs, caller, path, flags);
          OpenNewLookup(fs, caller, path, flags, name);
        } else {
          OpenOldLookup(fs, caller, path, flags, name);
        }
      case Close(caller, fd) =>
        OpenFacts(fs, caller, fd);
        SameDirLookup(fs, CloseFile(fs, caller, fd), name);
      case Read(caller, fd, len) => ReadLookup(fs, caller, fd, len, name);
      case Write(caller, fd, bytes) => WriteLookup(fs, caller, fd, bytes, name);
      case Unlink(path) => UnlinkLookup(fs, path, name);
    }
  }

  lemma NewReplies(fs: Fs, caller: nat, path: seq<byte>, flags: nat)
    requires Inv(fs) && Shape(fs) && CanServe(fs, caller, path, flags) && CreatesNew(fs, path, flags)
    ensures OpenFile(fs, caller, path, flags).1.Fd? || OpenFile(fs, caller, path, flags).1 == Panic
  {
    hide Inv, Lookup, Created, FreeFd, FreeDesc, FirstFree, NameFits, RoomLeft;
  }

  lemma ReadLookup(fs: Fs, caller: nat, fd: nat, len: nat, name: seq<byte>)
    requires Inv(fs) && Shape(fs) && Legal(fs, Read(caller, fd, len)) && Shape(Step(fs, Read(caller, fd, len)).0)
    ensures Lookup(Step(fs, Read(caller, fd, len)).0, name) == Lookup(fs, name)
  {
    OpenFacts(fs, caller, fd);
    hide Inv, Lookup, Advance, Cut, Transferred;
    if ReadsAndWrites(DescOf(fs, caller, fd).mode) {
      assert fs.(data := fs.data) == fs;
      MoveLookup(fs, fs.data, caller, fd, ReadCount(fs, caller, fd, len), name);
    }
  }

  lemma WriteLookup(fs: Fs, caller: nat, fd: nat, bytes: seq<byte>, name: seq<byte>)
    requires Inv(fs) && Shape(fs) && Legal(fs, Write(caller, fd, bytes)) && Shape(Step(fs, Write(caller, fd, bytes)).0)
    ensures Lookup(Step(fs, Write(caller, fd, bytes)).0, name) == Lookup(fs, name)
  {
    OpenFacts(fs, caller, fd);
    hide Inv, Lookup, Advance, Put;
    if ReadsAndWrites(DescOf(fs, caller, fd).mode) {
      var a := Base(fs.nSmap, SlotOf(fs, caller, fd).ino) + DescOf(fs, caller, fd).pos;
      MoveLookup(fs, Put(fs.data, a, bytes), caller, fd, |bytes|, name);
    }
  }

  /** Over a run in which no request is for the file, its name keeps its inode. */
  lemma {:induction false} RunLookup(fs: Fs, rs: seq<Request>, name: seq<byte>)
    requires Inv(fs) && Shape(fs) && LegalRun(fs, rs) && GoodName(name) && Untouched(fs, rs, name)
    ensures Shape(Exec(fs, rs)) && Lookup(Exec(fs, rs), name) == Lookup(fs, name)
    decreases |rs|
  {
    hide Inv, Step, Lookup, Legal, Shape, MakesNew, Deletes;
    if rs != [] && Step(fs, rs[0]).1 != Panic {
      StepInv(fs, rs[0]);
      StepLookup(fs, rs[0], name);
      RunLookup(Step(fs, rs[0]).0, rs[1..], name);
    }
  }

  // ---------------------------------------------------------------- streams

  /** The state after a request, and its answer. */
  ghost function After(fs: Fs, r: Request): (fs': Fs)
    requires Inv(fs) && Shape(fs) && Legal(fs, r)
    ensures fs' == Step(fs, r).0 && Inv(fs') && Shape(fs')
  {
    StepInv(fs, r);
    Step(fs, r).0
  }

  ghost function Answer(fs: Fs, r: Request): Reply
    requires Inv(fs) && Shape(fs) && Legal(fs, r)
  {
    Step(fs, r).1
  }

  /** The state after a run of requests. */
  ghost function AfterAll(fs: Fs, rs: seq<Request>): (fs': Fs)
    requires Inv(fs) && Shape(fs) && LegalRun(fs, rs)
    ensures fs' == Exec(fs, rs) && Inv(fs') && Shape(fs')
  {
    ReachableInv(fs, rs);
    Exec(fs, rs)
  }

  /** The open file is the one with the name, at position pos, for reading and writing. */
  ghost predicate StandsAt(fs: Fs, q: nat, f: nat, name: seq<byte>, pos: nat)
    requires Inv(fs) && Shape(fs)
  {
    && ValidFd(fs, q, f) && IsOpen(fs, q, f) && GoodName(name) && SlotOf(fs, q, f).num == Lookup(fs, name) != 0
    && ReadsAndWrites(DescOf(fs, q, f).mode) && DescOf(fs, q, f).pos == pos
  }

  /** The requests of the run are neither for the open file, nor for the file with its name. */
  ghost predicate Elsewhere(fs: Fs, rs: seq<Request>, q: nat, f: nat, name: seq<byte>)
    requires Inv(fs) && Shape(fs)
  {
    GoodName(name) && LegalRun(fs, rs) && Untouched(fs, rs, name) && LeavesAlone(rs, q, f)
  }

  lemma ElsewhereLegal(fs: Fs, rs: seq<Request>, q: nat, f: nat, name: seq<byte>)
    requires Inv(fs) && Shape(fs) && Elsewhere(fs, rs, q, f, name)
    ensures LegalRun(fs, rs)
  {}

  lemma StandsStill(fs: Fs, rs: seq<Request>, q: nat, f: nat, name: seq<byte>, pos: nat)
    requires Inv(fs) && Shape(fs) && StandsAt(fs, q, f, name, pos) && Elsewhere(fs, rs, q, f, name)
    ensures StandsAt(AfterAll(fs, rs), q, f, name, pos) && ViewOf(AfterAll(fs, rs), name) == ViewOf(fs, name)
  {
    hide Inv, Shape, Lookup, ViewOf, Exec, LegalRun, Untouched, LeavesAlone, AfterAll;
    LeftAlone(fs, rs, q, f);
    RunLookup(fs, rs, name);
    NonInterference(fs, rs, name);
  }

  lemma StoodAt(fs: Fs, q: nat, f: nat, name: seq<byte>, pos: nat)
    requires Inv(fs) && Shape(fs) && StandsAt(fs, q, f, name, pos)
    ensures ValidFd(fs, q, f) && IsOpen(fs, q, f) && GoodName(name) && q < |fs.filp| && f < NR_FILES
    ensures 0 < SlotOf(fs, q, f).num < MAP_BITS && IsContents(fs, SlotOf(fs, q, f).num, ViewOf(fs, name))
    ensures ReadsAndWrites(DescOf(fs, q, f).mode) && DescOf(fs, q, f).pos == pos && SlotOf(fs, q, f).num == Lookup(fs, name)
  {
    OpenFacts(fs, q, f);
    ViewIs(fs, name);
    hide Inv, IsContents, ViewOf;
  }

  /** When a request leaves the name its inode, the open file stands for it still. */
  lemma StandsOn(fs: Fs, r: Request, q: nat, f: nat, name: seq<byte>, pos: nat)
    requires Inv(fs) && Shape(fs) && Legal(fs, r) && StandsAt(fs, q, f, name, pos) && (r.Read? || r.Write?) && Answer(fs, r) != Panic
    ensures StandsAt(After(fs, r), q, f, name, pos + Moved(fs, r, q, f))
  {
    hide Inv, Shape, Lookup, ViewOf, Legal, Step, IsContents, Moved;
    StoodAt(fs, q, f, name, pos);
    StepInv(fs, r);
    StepFiles(fs, r, q, f);
    StepLookup(fs, r, name);
  }

  /** Reading where the open file stands: as many bytes as are asked for and there, and the position
      is behind them. */
  ghost predicate ReadPiece(v: View, reply: Reply, pos: nat, len: nat) {
    && v.File? && reply.Bytes? && pos <= |v.bytes| && |reply.bytes| <= len
    && var n := Min(len, |v.bytes| - pos);
    n <= |reply.bytes| && reply.bytes[..n] == v.bytes[pos..pos + n]
  }

  lemma ReadsPiece(fs: Fs, q: nat, f: nat, len: nat, name: seq<byte>, pos: nat)
    requires Inv(fs) && Shape(fs) && StandsAt(fs, q, f, name, pos) && Legal(fs, Read(q, f, len))
    ensures ReadPiece(ViewOf(fs, name), Answer(fs, Read(q, f, len)), pos, len)
  {
    hide Inv, Shape, Lookup, ViewOf, IsContents, StandsAt, Cut, Transferred, Advance, ReadCount;
    StoodAt(fs, q, f, name, pos);
    ReadIs(fs, q, f, len);
    ReadReply(fs, q, f, len, ViewOf(fs, name));
  }

  lemma ReadsHere(fs: Fs, q: nat, f: nat, len: nat, name: seq<byte>, pos: nat)
    requires Inv(fs) && Shape(fs) && StandsAt(fs, q, f, name, pos) && Legal(fs, Read(q, f, len))
    requires ViewOf(fs, name).File? && pos + len <= |ViewOf(fs, name).bytes|
    ensures Answer(fs, Read(q, f, len)) == Bytes(ViewOf(fs, name).bytes[pos..pos + len])
    ensures ViewOf(After(fs, Read(q, f, len)), name) == ViewOf(fs, name)
    ensures StandsAt(After(fs, Read(q, f, len)), q, f, name, pos + len)
  {
    hide Inv, Shape, Lookup, ViewOf, Legal, Step, StandsAt;
    var r := Read(q, f, len);
    ReadsPiece(fs, q, f, len, name, pos);
    var b := Answer(fs, r).bytes;
    assert b[..len] == b;
    StandsOn(fs, r, q, f, name, pos);
    StoodAt(fs, q, f, name, pos);
    ReadWithin(fs, q, f, len, name, pos);
  }

  /** A read within the file leaves what its name stands for. */
  lemma ReadWithin(fs: Fs, q: nat, f: nat, len: nat, name: seq<byte>, pos: nat)
    requires Inv(fs) && Shape(fs) && StandsAt(fs, q, f, name, pos) && Legal(fs, Read(q, f, len))
    requires ViewOf(fs, name).File? && pos + len <= |ViewOf(fs, name).bytes|
    ensures ViewOf(After(fs, Read(q, f, len)), name) == ViewOf(fs, name)
  {
    hide Inv, Shape, Lookup, ViewOf, Step, Legal, IsContents, StandsAt;
    StoodAt(fs, q, f, name, pos);
    SizeOfView(fs, q, f, name, pos);
    StepInv(fs, Read(q, f, len));
    StepView(fs, Read(q, f, len), name);
  }

  lemma SizeOfView(fs: Fs, q: nat, f: nat, name: seq<byte>, pos: nat)
    requires Inv(fs) && Shape(fs) && StandsAt(fs, q, f, name, pos) && ViewOf(fs, name).File?
    ensures |ViewOf(fs, name).bytes| == SlotOf(fs, q, f).ino.size
  {
    OpenFacts(fs, q, f);
    StoodAt(fs, q, f, name, pos);
    hide Inv, Lookup, ViewOf;
  }

  /** Writing where the open file stands: the bytes are in the file there, and the position is
      behind them. */
  lemma WritesHere(fs: Fs, q: nat, f: nat, bytes: seq<byte>, name: seq<byte>, pos: nat)
    requires Inv(fs) && Shape(fs) && StandsAt(fs, q, f, name, pos) && Legal(fs, Write(q, f, bytes))
    ensures Answer(fs, Write(q, f, bytes)) == Written(|bytes|)
    ensures ViewOf(fs, name).File? && pos <= |ViewOf(fs, name).bytes|
    ensures ViewOf(After(fs, Write(q, f, bytes)), name) == File(Patched(ViewOf(fs, name).bytes, pos, bytes))
    ensures StandsAt(After(fs, Write(q, f, bytes)), q, f, name, pos + |bytes|)
  {
    hide Inv, Shape, Lookup, ViewOf, Legal, Step, IsContents;
    StoodAt(fs, q, f, name, pos);
    WriteAnswer(fs, q, f, bytes);
    StepInv(fs, Write(q, f, bytes));
    StepView(fs, Write(q, f, bytes), name);
    StandsOn(fs, Write(q, f, bytes), q, f, name, pos);
  }

  lemma WriteAnswer(fs: Fs, q: nat, f: nat, bytes: seq<byte>)
    requires Inv(fs) && Shape(fs) && Legal(fs, Write(q, f, bytes)) && ReadsAndWrites(DescOf(fs, q, f).mode)
    ensures Answer(fs, Write(q, f, bytes)) == Written(|bytes|)
  {
    OpenFacts(fs, q, f);
    hide Inv, Put, Advance;
  }

  lemma PatchedOn(f: seq<byte>, pos: nat, a: seq<byte>, b: seq<byte>)
    requires pos <= |f|
    ensures pos + |a| <= |Patched(f, pos, a)|
    ensures Patched(Patched(f, pos, a), pos + |a|, b) == Patched(f, pos, a + b)
  {}

  lemma ReadIs(fs: Fs, q: nat, f: nat, len: nat)
    requires Inv(fs) && Shape(fs) && Legal(fs, Read(q, f, len)) && ReadsAndWrites(DescOf(fs, q, f).mode)
    ensures 0 < SlotOf(fs, q, f).num < MAP_BITS && InExtent(fs, q, f, ReadCount(fs, q, f, len))
    ensures var n, a := ReadCount(fs, q, f, len), Base(fs.nSmap, SlotOf(fs, q, f).ino) + DescOf(fs, q, f).pos;
            && 0 <= a && (n > 0 ==> a + n <= |fs.data|)
            && After(fs, Read(q, f, len)) == Advance(fs, q, f, n) && Answer(fs, Read(q, f, len)) == Bytes(Cut(fs.data, a, n))
  {
    OpenFacts(fs, q, f);
    hide Inv, Advance, Cut, Transferred;
  }

  lemma PieceOf(data: seq<byte>, a: nat, size: nat, pos: nat, n: nat)
    requires pos + n <= size && (size > 0 ==> a + size <= |data|) && (n > 0 ==> a + pos + n <= |data|)
    ensures Cut(data, a, size)[pos..pos + n] == Cut(data, a + pos, n)
  {}

  /** What a read returns, past the end of the file as well, is what the file holds there afterwards. */
  lemma ReadIsThere(fs: Fs, q: nat, f: nat, len: nat, name: seq<byte>, pos: nat)
    requires Inv(fs) && Shape(fs) && StandsAt(fs, q, f, name, pos) && Legal(fs, Read(q, f, len))
    ensures var reply, v := Answer(fs, Read(q, f, len)), ViewOf(After(fs, Read(q, f, len)), name);
            reply.Bytes? && v.File? && pos + |reply.bytes| <= |v.bytes| && v.bytes[pos..pos + |reply.bytes|] == reply.bytes
  {
    assert |fs.inodes| == NR_INODES;
    hide Inv, Shape, Lookup, ViewOf, Advance, StandsAt, Legal, Step, Cut, Transferred, ReadCount, IsContents;
    StoodAt(fs, q, f, name, pos);
    ReadIs(fs, q, f, len);
    var fs', n := After(fs, Read(q, f, len)), ReadCount(fs, q, f, len);
    ReadLookup(fs, q, f, len, name);
    AdvanceFacts(fs, q, f, n);
    hide After, Answer;
    ViewIs(fs', name);
    GrownPiece(fs, fs', SlotOf(fs, q, f).num, pos, n, ViewOf(fs', name));
  }

  lemma GrownPiece(fs: Fs, fs': Fs, i: nat, pos: nat, n: nat, v: View)
    requires 0 < i < MAP_BITS && |fs.inodes| == NR_INODES && IsContents(fs', i, v) && fs'.nSmap == fs.nSmap && fs'.data == fs.data
    requires var x := fs.inodes[i - 1];
             && x.mode == I_REGULAR && 0 <= Base(fs.nSmap, x) && (n > 0 ==> Base(fs.nSmap, x) + pos + n <= |fs.data|)
             && fs'.inodes == fs.inodes[i - 1 := x.(size := if pos + n > x.size then pos + n else x.size)]
    ensures v.File? && pos + n <= |v.bytes| && v.bytes[pos..pos + n] == Cut(fs.data, Base(fs.nSmap, fs.inodes[i - 1]) + pos, n)
  {
    PieceOf(fs.data, Base(fs.nSmap, fs.inodes[i - 1]), fs'.inodes[i - 1].size, pos, n);
    hide Cut;
  }

  /** A file that has been opened is read from its start, as it was when it was opened, or empty when
      the request has made it. */
  lemma OpenThenRead(fs: Fs, q: nat, path: seq<byte>, flags: nat, rs: seq<Request>, len: nat, name: seq<byte>)
    requires Inv(fs) && Shape(fs) && Legal(fs, Open(q, path, flags)) && Answer(fs, Open(q, path, flags)).Fd?
    requires StripPath(path) == Name(name) && GoodName(name) && ReadsAndWrites(flags)
    requires var fs1, f := After(fs, Open(q, path, flags)), Answer(fs, Open(q, path, flags)).fd;
             Elsewhere(fs1, rs, q, f, name) && Legal(AfterAll(fs1, rs), Read(q, f, len))
    ensures var fs1, f := After(fs, Open(q, path, flags)), Answer(fs, Open(q, path, flags)).fd;
            ReadPiece(if CreatesNew(fs, path, flags) then File([]) else ViewOf(fs, name),
                      Answer(AfterAll(fs1, rs), Read(q, f, len)), 0, len)
  {
    var fs1, f := After(fs, Open(q, path, flags)), Answer(fs, Open(q, path, flags)).fd;
    OpenFresh(fs, q, path, flags);
    StandsAtStart(fs, fs1, q, f, path, flags, name);
    OpenedView(fs, q, path, flags, name);
    hide Inv, Shape, Lookup, ViewOf, Legal, Step, After, AfterAll, Answer, Elsewhere, StandsAt, Fresh, ReadPiece, CreatesNew, GoodName, StripPath;
    StandsStill(fs1, rs, q, f, name, 0);
    ReadsPiece(AfterAll(fs1, rs), q, f, len, name, 0);
  }

  lemma OpenedView(fs: Fs, q: nat, path: seq<byte>, flags: nat, name: seq<byte>)
    requires Inv(fs) && Shape(fs) && Legal(fs, Open(q, path, flags)) && Answer(fs, Open(q, path, flags)).Fd?
    requires StripPath(path) == Name(name) && GoodName(name)
    ensures ViewOf(After(fs, Open(q, path, flags)), name) == if CreatesNew(fs, path, flags) then File([]) else ViewOf(fs, name)
  {
    hide Inv, Shape, Lookup, ViewOf, Legal, Step, CreatesNew;
    StepInv(fs, Open(q, path, flags));
    StepView(fs, Open(q, path, flags), name);
  }

  lemma StandsAtStart(fs: Fs, fs': Fs, q: nat, f: nat, path: seq<byte>, flags: nat, name: seq<byte>)
    requires Inv(fs') && Shape(fs') && Fresh(fs, fs', q, f, path, flags) && ReadsAndWrites(flags)
    requires StripPath(path) == Name(name) && GoodName(name)
    ensures StandsAt(fs', q, f, name, 0)
  {
    StripPathOfName(name);
    hide Inv, FindName, Padded;
  }

  /** Two writes through one open file, with nothing for it or its file in between, are one write of
      the bytes of both. */
  lemma ConsecutiveWrites(fs: Fs, q: nat, f: nat, a: seq<byte>, rs: seq<Request>, b: seq<byte>, name: seq<byte>, pos: nat)
    requires Inv(fs) && Shape(fs) && StandsAt(fs, q, f, name, pos) && Legal(fs, Write(q, f, a))
    requires Elsewhere(After(fs, Write(q, f, a)), rs, q, f, name)
    requires Legal(AfterAll(After(fs, Write(q, f, a)), rs), Write(q, f, b))
    ensures ViewOf(fs, name).File? && pos <= |ViewOf(fs, name).bytes|
    ensures var end := After(AfterAll(After(fs, Write(q, f, a)), rs), Write(q, f, b));
            && ViewOf(end, name) == File(Patched(ViewOf(fs, name).bytes, pos, a + b))
            && StandsAt(end, q, f, name, pos + |a| + |b|)
  {
    hide Inv, Shape, Lookup, ViewOf, Legal, After, AfterAll, Answer, LegalRun, Untouched, LeavesAlone, Patched, StandsAt;
    assert GoodName(name) by {
      StoodAt(fs, q, f, name, pos);
    }
    WritesHere(fs, q, f, a, name, pos);
    var fs1 := After(fs, Write(q, f, a));
    StandsStill(fs1, rs, q, f, name, pos + |a|);
    WritesHere(AfterAll(fs1, rs), q, f, b, name, pos + |a|);
    PatchedOn(ViewOf(fs, name).bytes, pos, a, b);
  }

  /** Two reads through one open file, with nothing for it or its file in between, return
      consecutive pieces of the file. */
  lemma ConsecutiveReads(fs: Fs, q: nat, f: nat, n: nat, rs: seq<Request>, m: nat, name: seq<byte>, pos: nat)
    requires Inv(fs) && Shape(fs) && StandsAt(fs, q, f, name, pos) && Legal(fs, Read(q, f, n))
    requires ViewOf(fs, name).File? && pos + n + m <= |ViewOf(fs, name).bytes|
    requires Elsewhere(After(fs, Read(q, f, n)), rs, q, f, name)
    requires Legal(AfterAll(After(fs, Read(q, f, n)), rs), Read(q, f, m))
    ensures var a, b := Answer(fs, Read(q, f, n)), Answer(AfterAll(After(fs, Read(q, f, n)), rs), Read(q, f, m));
            a.Bytes? && b.Bytes? && a.bytes + b.bytes == ViewOf(fs, name).bytes[pos..pos + n + m]
    ensures StandsAt(After(AfterAll(After(fs, Read(q, f, n)), rs), Read(q, f, m)), q, f, name, pos + n + m)
  {
    hide Inv, Shape, Lookup, ViewOf, Legal, After, AfterAll, Answer, Elsewhere, StandsAt;
    assert GoodName(name) by {
      StoodAt(fs, q, f, name, pos);
    }
    ElsewhereLegal(After(fs, Read(q, f, n)), rs, q, f, name);
    ReadsHere(fs, q, f, n, name, pos);
    var fs1 := After(fs, Read(q, f, n));
    StandsStill(fs1, rs, q, f, name, pos + n);
    ReadsHere(AfterAll(fs1, rs), q, f, m, name, pos + n);
  }
}
