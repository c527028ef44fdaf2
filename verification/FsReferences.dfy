/** The reference counts of inodes over runs: what they count besides open files, which
    requests can remove a file, and the references that failed unlink requests leave behind. */
module FsReferences {
  import opened Options
  import opened FsBits
  import opened FsMaps
  import opened FsInodes
  import opened FsDirectory
  import opened FsEntries
  import opened FsTransfer
  import opened FsState
  import opened FsInvariant
  import opened FsTables
  import opened FsCreate
  import opened FsRemove
  import opened FsRuns

  /** How far the count of slot p is above what open files, and the root, account for. */
  ghost function Spare(fs: Fs, p: nat): int
    requires p < |fs.table|
  {
    fs.table[p].cnt - References(fs.fdt, p)
  }

  /** The request is an unlink that fails after it has got a reference to slot p. */
  ghost predicate Leaks(fs: Fs, r: Request, p: nat)
    requires Inv(fs) && Shape(fs) && Legal(fs, r)
  {
    r.Unlink? && r.path != [SLASH] && StripPath(r.path).Name? && 0 < Lookup(fs, r.path) < MAP_BITS
    && Get(fs.table, fs.inodes, Lookup(fs, r.path)).1 == At(p) && Step(fs, r).1 == Failed
  }

  // ---------------------------------------------------------------- one request

  lemma GotSpare(fs: Fs, nr: nat, p: nat)
    requires Inv(fs) && Shape(fs) && 0 < nr < MAP_BITS && Get(fs.table, fs.inodes, nr).1.At? && p < NR_INODE
    ensures Spare(fs.(table := Get(fs.table, fs.inodes, nr).0), p)
            == Spare(fs, p) + if Get(fs.table, fs.inodes, nr).1 == At(p) then 1 else 0
  {
    hide Inv, Get, References;
    GetGot(fs.table, fs.inodes, nr);
  }

  lemma AttachSpare(fs: Fs, caller: nat, fd: nat, d: nat, mode: nat, q: nat, p: nat)
    requires caller < |fs.filp| && fd < |fs.filp[caller]| && d < |fs.fdt| && fs.fdt[d].slot.None? && p < |fs.table|
    ensures Spare(Attach(fs, caller, fd, d, mode, q), p) == Spare(fs, p) - if p == q then 1 else 0
  {
    RefsUpdate(fs.fdt, d, Desc(mode, 0, Some(q)), p);
    hide Refs;
  }

  lemma CreatedSpare(fs: Fs, name: seq<byte>, nr: nat, s: nat, q: nat, p: nat)
    requires Inv(fs) && Shape(fs) && CanCreate(fs, name, nr, s, q) && 1 + FILE_SECTS * s + FILE_SECTS <= |fs.smapBits|
    requires p < NR_INODE && 0 < fs.table[ROOT_SLOT].num <= NR_INODES
    ensures Spare(Created(fs, fs.table, name, nr, 1 + FILE_SECTS * s, q), p) == Spare(fs, p) + if p == q then 1 else 0
  {
    hide References, SetRange, AddName, GrownSize, FirstUnused, Taken, Unused, DirOk, InodesOk, SectorMapExact, InodeMapExact;
    CountedAt(fs.table, fs.fdt, q);
  }

  lemma OpenSpare(fs: Fs, caller: nat, path: seq<byte>, flags: nat, p: nat)
    requires Inv(fs) && Shape(fs) && ValidPath(path) && caller < |fs.filp| && Lookup(fs, path) < MAP_BITS && p < NR_INODE
    requires CreatesNew(fs, path, flags) ==> NameFits(fs, StripPath(path).name) && RoomLeft(fs) && HasRoom(fs)
    requires OpenFile(fs, caller, path, flags).1 != Panic
    ensures |OpenFile(fs, caller, path, flags).0.table| == NR_INODE
    ensures Spare(OpenFile(fs, caller, path, flags).0, p) == Spare(fs, p)
  {
    hide Inv, References, OpenInode, Lookup, Attach, RoomLeft, HasRoom, CreatesNew, Spare;
    var fd, d := FreeFd(fs.filp[caller], NR_FILES), FreeDesc(fs.fdt, NR_FILE_DESC);
    OpenInodeInv(fs, path, flags);
    var r := OpenInode(fs, path, flags);
    InvShape(r.0);
    OpenInodeSpare(fs, path, flags, p);
    if r.1.At? {
      AttachSpare(r.0, caller, fd, d, flags, r.1.p, p);
      AttachTable(r.0, caller, fd, d, flags, r.1.p);
    }
  }

  lemma AttachTable(fs: Fs, caller: nat, fd: nat, d: nat, mode: nat, q: nat)
    requires caller < |fs.filp| && fd < |fs.filp[caller]| && d < |fs.fdt|
    ensures Attach(fs, caller, fd, d, mode, q).table == fs.table
  {}

  lemma OpenInodeSpare(fs: Fs, path: seq<byte>, flags: nat, p: nat)
    requires Inv(fs) && Shape(fs) && ValidPath(path) && Lookup(fs, path) < MAP_BITS && p < NR_INODE
    requires CreatesNew(fs, path, flags) ==> NameFits(fs, StripPath(path).name) && RoomLeft(fs) && HasRoom(fs)
    ensures var r := OpenInode(fs, path, flags);
            |r.0.table| == NR_INODE && Spare(r.0, p) == Spare(fs, p) + if r.1 == At(p) then 1 else 0
  {
    hide Inv, Get, Lookup, Created, References, CreateFile, Spare, RoomLeft, HasRoom, CanCreate;
    RootFacts(fs);
    if CreatesNew(fs, path, flags) {
      var name := StripPath(path).name;
      CreateFacts(fs, name, path);
      if CreateFile(fs, name).1.At? {
        CreatedSpare(fs, name, FirstFree(fs.imapBits), FirstFree(fs.smapBits) / FILE_SECTS, CreateFile(fs, name).1.p, p);
      }
    } else if !Creates(flags) && StripPath(path).Name? {
      var nr := Lookup(fs, path);
      GetNothing(fs.table, fs.inodes, nr);
      if nr != 0 && Get(fs.table, fs.inodes, nr).1.At? {
        GotSpare(fs, nr, p);
      }
    }
  }

  lemma CloseSpare(fs: Fs, caller: nat, fd: nat, p: nat)
    requires Inv(fs) && Shape(fs) && IsOpen(fs, caller, fd) && p < NR_INODE
    ensures Spare(CloseFile(fs, caller, fd), p) == Spare(fs, p)
  {
    var d := fs.filp[caller][fd].value;
    RefsUpdate(fs.fdt, d, fs.fdt[d].(slot := None), p);
    hide Refs, Inv;
  }

  lemma AdvanceSpare(fs: Fs, caller: nat, fd: nat, n: nat, p: nat)
    requires Shape(fs) && IsOpen(fs, caller, fd) && 0 < SlotOf(fs, caller, fd).num <= NR_INODES && p < NR_INODE
    ensures Spare(Advance(fs, caller, fd, n), p) == Spare(fs, p)
  {
    var d := fs.filp[caller][fd].value;
    RefsUpdate(fs.fdt, d, fs.fdt[d].(pos := fs.fdt[d].pos + n), p);
    hide Refs;
  }

  lemma ReadSpare(fs: Fs, caller: nat, fd: nat, len: nat, p: nat)
    requires Shape(fs) && IsOpen(fs, caller, fd) && 0 < SlotOf(fs, caller, fd).num <= NR_INODES && p < NR_INODE
    requires ReadsAndWrites(DescOf(fs, caller, fd).mode) ==> InExtent(fs, caller, fd, ReadCount(fs, caller, fd, len))
    ensures |ReadFile(fs, caller, fd, len).0.table| == NR_INODE && Spare(ReadFile(fs, caller, fd, len).0, p) == Spare(fs, p)
  {
    hide References, Cut, Transferred;
    if ReadsAndWrites(DescOf(fs, caller, fd).mode) {
      AdvanceSpare(fs, caller, fd, ReadCount(fs, caller, fd, len), p);
    }
  }

  lemma WriteSpare(fs: Fs, caller: nat, fd: nat, bytes: seq<byte>, p: nat)
    requires Shape(fs) && IsOpen(fs, caller, fd) && 0 < SlotOf(fs, caller, fd).num <= NR_INODES && p < NR_INODE
    requires ReadsAndWrites(DescOf(fs, caller, fd).mode) ==> InExtent(fs, caller, fd, |bytes|)
    ensures |WriteFile(fs, caller, fd, bytes).0.table| == NR_INODE && Spare(WriteFile(fs, caller, fd, bytes).0, p) == Spare(fs, p)
  {
    hide References, Put;
    if ReadsAndWrites(DescOf(fs, caller, fd).mode) {
      var a := Base(fs.nSmap, SlotOf(fs, caller, fd).ino) + DescOf(fs, caller, fd).pos;
      AdvanceSpare(fs.(data := Put(fs.data, a, bytes)), caller, fd, |bytes|, p);
    }
  }

  lemma UnlinkSpare(fs: Fs, path: seq<byte>, p: nat)
    requires Inv(fs) && Shape(fs) && Legal(fs, Unlink(path)) && Consistent(fs, path) && p < NR_INODE
    requires UnlinkFile(fs, path).1 != Panic
    ensures |UnlinkFile(fs, path).0.table| == NR_INODE
    ensures Spare(UnlinkFile(fs, path).0, p)
            == Spare(fs, p) + if path != [SLASH] && StripPath(path).Name? && 0 < Lookup(fs, path) < MAP_BITS
                                 && Get(fs.table, fs.inodes, Lookup(fs, path)).1 == At(p) && UnlinkFile(fs, path).1 == Failed
                              then 1 else 0
  {
    hide Inv, Get, Lookup, References, Compact, InodeOk, Spare;
    LookupInUse(fs, path);
    var nr := Lookup(fs, path);
    if path != [SLASH] && nr != 0 && StripPath(path).Name? && Get(fs.table, fs.inodes, nr).1.At? {
      var g := Get(fs.table, fs.inodes, nr);
      GotSpare(fs, nr, p);
      GetInv(fs, nr);
      if Removable(g.0, g.1.p) {
        RemovedSpare(fs, g.0, nr, g.1.p, EntryOf(fs, nr), p);
      }
    }
  }

  lemma RemovedSpare(fs: Fs, t: seq<Slot>, nr: nat, q: nat, e: nat, p: nat)
    requires Shape(fs) && |t| == |fs.table| && q < |t| && 0 < nr < MAP_BITS && Mapped(fs, t, q) && p < NR_INODE
    requires e < DirSize(fs.table) / 16 && t[q].cnt <= 1 && References(fs.fdt, q) < t[q].cnt
    ensures Spare(Unnamed(Released(fs, t, nr, q), e), p) == Spare(fs.(table := t), p) - if p == q then 1 else 0
  {
    hide References, SetRange, ShrunkSize;
  }

  /** A request leaves what is to spare of every slot as it is, except that an unlink request
      that fails after it has got a reference leaves one reference too many. */
  lemma StepSpare(fs: Fs, r: Request, p: nat)
    requires Inv(fs) && Shape(fs) && Legal(fs, r) && Step(fs, r).1 != Panic && p < NR_INODE
    requires Shape(Step(fs, r).0)
    ensures Spare(Step(fs, r).0, p) == Spare(fs, p) + if Leaks(fs, r, p) then 1 else 0
  {
    hide Inv, OpenFile, UnlinkFile, Lookup, Spare, RoomLeft;
    match r {
      case Open(caller, path, flags) =>
        LookupInUse(fs, path);
        if CreatesNew(fs, path, flags) {
          RoomLeftFacts(fs);
        }
        OpenSpare(fs, caller, path, flags, p);
      case Close(caller, fd) =>
        OpenFacts(fs, caller, fd);
        CloseSpare(fs, caller, fd, p);
      case Read(caller, fd, len) =>
        OpenFacts(fs, caller, fd);
        ReadSpare(fs, caller, fd, len, p);
      case Write(caller, fd, bytes) =>
        OpenFacts(fs, caller, fd);
        WriteSpare(fs, caller, fd, bytes, p);
      case Unlink(path) =>
        UnlinkConsistent(fs, path);
        UnlinkSpare(fs, path, p);
    }
  }

  // ---------------------------------------------------------------- exact counts

  /** Every slot's count is exactly the number of its descriptors, and one for the root. */
  ghost predicate Exact(fs: Fs) {
    forall p | 0 <= p < |fs.table| :: Spare(fs, p) == 0
  }

  /** A request keeps the counts exact if and only if it leaks nothing. */
  lemma StepExact(fs: Fs, r: Request)
    requires Inv(fs) && Shape(fs) && Legal(fs, r) && Step(fs, r).1 != Panic && Exact(fs)
    ensures Exact(Step(fs, r).0) <==> forall p: nat | p < NR_INODE :: !Leaks(fs, r, p)
  {
    StepInv(fs, r);
    hide Inv, Step, Legal, Leaks, Spare;
    forall p | 0 <= p < NR_INODE ensures Spare(Step(fs, r).0, p) == if Leaks(fs, r, p) then 1 else 0 {
      StepSpare(fs, r, p);
      assert Spare(fs, p) == 0;
    }
  }

  /** An unlink request removes the file exactly when the path stands for a regular file whose
      inode is not in the table, and there is a slot to load it into. */
  lemma UnlinkSucceeds(fs: Fs, path: seq<byte>)
    requires Inv(fs) && Shape(fs)
    ensures Unlinked(fs, path).1 == Done <==>
              var nr := Lookup(fs, path);
              && path != [SLASH] && StripPath(path).Name? && 0 < nr < MAP_BITS && fs.inodes[nr - 1].mode == I_REGULAR
              && FindUsed(fs.table, nr, NR_INODE) < 0 && FindFree(fs.table, NR_INODE) >= 0
  {
    hide Inv, Lookup, FindUsed, FindFree;
    UnlinkConsistent(fs, path);
    LookupInUse(fs, path);
    var nr := Lookup(fs, path);
    if 0 < nr && Get(fs.table, fs.inodes, nr).1.At? {
      GetInv(fs, nr);
    }
  }

  /** So no open file is ever removed. */
  lemma OpenFileStays(fs: Fs, path: seq<byte>, caller: nat, fd: nat)
    requires Inv(fs) && Shape(fs) && Legal(fs, Unlink(path)) && ValidFd(fs, caller, fd) && IsOpen(fs, caller, fd)
    requires SlotOf(fs, caller, fd).num == Lookup(fs, path)
    ensures Step(fs, Unlink(path)).1 != Done
  {
    OpenFacts(fs, caller, fd);
    UnlinkSucceeds(fs, path);
    StepUnlink(fs, path);
    hide Inv, Step, Lookup, Legal;
    UsedFound(fs.table, SlotOf(fs, caller, fd).num, DescOf(fs, caller, fd).slot.value);
  }

  /** An unlink request for an open file always leaves a reference behind. */
  lemma UnlinkOpenLeaks(fs: Fs, path: seq<byte>, caller: nat, fd: nat)
    requires Inv(fs) && Shape(fs) && Legal(fs, Unlink(path)) && ValidFd(fs, caller, fd) && IsOpen(fs, caller, fd)
    requires SlotOf(fs, caller, fd).num == Lookup(fs, path) && path != [SLASH] && StripPath(path).Name?
    ensures Leaks(fs, Unlink(path), DescOf(fs, caller, fd).slot.value)
  {
    OpenFileStays(fs, path, caller, fd);
    OpenFacts(fs, caller, fd);
    LookupInUse(fs, path);
    UnlinkConsistent(fs, path);
    StepUnlink(fs, path);
    var p := DescOf(fs, caller, fd).slot.value;
    UsedFound(fs.table, Lookup(fs, path), p);
    UsedOnce(fs, p);
    hide Inv, Step, Lookup, Legal, FindUsed, FindFree, Compact, Removes;
  }

  /** A slot in use is the one that its inode is found in. */
  lemma UsedOnce(fs: Fs, p: nat)
    requires Inv(fs) && Shape(fs) && p < NR_INODE && fs.table[p].cnt > 0
    ensures FindUsed(fs.table, fs.table[p].num, NR_INODE) == p
  {
    var q := FindUsed(fs.table, fs.table[p].num, NR_INODE);
    UsedFound(fs.table, fs.table[p].num, p);
    assert q < p || q == p || p < q;
  }

  lemma UsedFound(t: seq<Slot>, num: nat, p: nat)
    requires p < |t| && t[p].cnt > 0 && t[p].num == num
    ensures FindUsed(t, num, |t|) >= 0
  {}

  /** While counts are exact, an inode is in the table exactly when a descriptor refers to it,
      or it is the directory's. */
  lemma ExactMeansOpen(fs: Fs, p: nat)
    requires Inv(fs) && Shape(fs) && Exact(fs) && p < NR_INODE
    ensures fs.table[p].cnt > 0 <==> p == ROOT_SLOT || exists d :: 0 <= d < |fs.fdt| && Refers(fs.fdt[d], p)
  {
    hide Inv;
    assert Spare(fs, p) == 0;
    RefsExist(fs.fdt, p);
  }

  lemma {:induction false} RefsExist(fdt: seq<Desc>, p: nat)
    ensures Refs(fdt, p) > 0 <==> exists d :: 0 <= d < |fdt| && Refers(fdt[d], p)
  {
    if fdt != [] {
      var n := |fdt| - 1;
      RefsExist(fdt[..n], p);
      if d :| 0 <= d < |fdt| && Refers(fdt[d], p) && d < n {
        assert Refers(fdt[..n][d], p);
      }
      if d :| 0 <= d < n && Refers(fdt[..n][d], p) {
        assert Refers(fdt[d], p);
      }
    }
  }

  // ---------------------------------------------------------------- a leaked reference

  /** A slot in use keeps its inode number. */
  lemma StepNumber(fs: Fs, r: Request, p: nat)
    requires Inv(fs) && Shape(fs) && Legal(fs, r) && Step(fs, r).1 != Panic && p < NR_INODE && fs.table[p].cnt > 0
    requires Shape(Step(fs, r).0)
    ensures Step(fs, r).0.table[p].num == fs.table[p].num
  {
    hide Inv, Lookup, RoomLeft, FindUsed, FindFree, AddName, GrownSize, FirstUnused, SetRange, ShrunkSize, Put, Cut;
    match r {
      case Open(caller, path, flags) =>
        LookupInUse(fs, path);
        if CreatesNew(fs, path, flags) {
          RoomLeftFacts(fs);
        }
        OpenNumber(fs, caller, path, flags, p);
      case Close(caller, fd) =>
      case Read(caller, fd, len) =>
        OpenFacts(fs, caller, fd);
      case Write(caller, fd, bytes) =>
        OpenFacts(fs, caller, fd);
      case Unlink(path) =>
        UnlinkConsistent(fs, path);
        UnlinkNumber(fs, path, p);
    }
  }

  lemma OpenNumber(fs: Fs, caller: nat, path: seq<byte>, flags: nat, p: nat)
    requires Inv(fs) && Shape(fs) && ValidPath(path) && caller < |fs.filp| && Lookup(fs, path) < MAP_BITS
    requires CreatesNew(fs, path, flags) ==> NameFits(fs, StripPath(path).name) && RoomLeft(fs) && HasRoom(fs)
    requires OpenFile(fs, caller, path, flags).1 != Panic && p < NR_INODE && fs.table[p].cnt > 0
    ensures |OpenFile(fs, caller, path, flags).0.table| == NR_INODE
    ensures OpenFile(fs, caller, path, flags).0.table[p].num == fs.table[p].num
  {
    hide Inv, Lookup, RoomLeft, HasRoom, FindUsed, FindFree, AddName, GrownSize, FirstUnused, SetRange, CreateFile, CanCreate, Get;
    var nr := Lookup(fs, path);
    if CreatesNew(fs, path, flags) {
      CreateFacts(fs, StripPath(path).name, path);
      CreatedNumber(fs, StripPath(path).name, p);
    } else if nr != 0 && Get(fs.table, fs.inodes, nr).1.At? {
      GetGot(fs.table, fs.inodes, nr);
    } else {
      GetNothing(fs.table, fs.inodes, nr);
    }
  }

  lemma CreatedNumber(fs: Fs, name: seq<byte>, p: nat)
    requires Shape(fs) && |name| <= 12 && HasRoom(fs) && p < NR_INODE && fs.table[p].cnt > 0
    requires CreateFile(fs, name).1.At? ==>
               CreatedAs(fs, name, FirstFree(fs.imapBits), FirstFree(fs.smapBits) / FILE_SECTS, CreateFile(fs, name).1.p)
    ensures |CreateFile(fs, name).0.table| == NR_INODE && CreateFile(fs, name).0.table[p].num == fs.table[p].num
  {
    hide Get, HasRoom, FirstFree, AddName, GrownSize, FirstUnused, SetRange, Taken, Unused, FindUsed;
  }

  lemma UnlinkNumber(fs: Fs, path: seq<byte>, p: nat)
    requires Inv(fs) && Shape(fs) && Legal(fs, Unlink(path)) && Consistent(fs, path) && p < NR_INODE && fs.table[p].cnt > 0
    ensures |UnlinkFile(fs, path).0.table| == NR_INODE && UnlinkFile(fs, path).0.table[p].num == fs.table[p].num
  {
    hide Inv, Lookup, Get, Compact, SetRange, ShrunkSize, LiveBelow, FirstWith;
    var nr := Lookup(fs, path);
    if nr != 0 && Get(fs.table, fs.inodes, nr).1.At? {
      GetGot(fs.table, fs.inodes, nr);
    }
  }

  /** A file whose slot has a reference to spare can never be removed again: not now, and not
      after any run of requests. */
  lemma {:induction false} LeakedForever(fs: Fs, rs: seq<Request>, p: nat, path: seq<byte>)
    requires Inv(fs) && Shape(fs) && LegalRun(fs, rs) && p < NR_INODE && Spare(fs, p) > 0
    requires var fs' := Exec(fs, rs); Inv(fs') && Shape(fs') && Legal(fs', Unlink(path)) && Lookup(fs', path) == fs.table[p].num
    ensures Step(Exec(fs, rs), Unlink(path)).1 != Done
    decreases |rs|
  {
    hide Inv, Step, Lookup, Legal, References;
    var fs' := Exec(fs, rs);
    if rs == [] || Step(fs, rs[0]).1 == Panic {
      UnlinkSucceeds(fs', path);
      StepUnlink(fs', path);
      UsedFound(fs'.table, fs.table[p].num, p);
    } else {
      StepInv(fs, rs[0]);
      StepSpare(fs, rs[0], p);
      StepNumber(fs, rs[0], p);
      LeakedForever(Step(fs, rs[0]).0, rs[1..], p, path);
    }
  }

  /** One unlink request for a file that is open, and the file stays for good, even when it is
      closed afterwards. */
  lemma FailedUnlinkIsFinal(fs: Fs, r: Request, p: nat, rs: seq<Request>, path: seq<byte>)
    requires Inv(fs) && Shape(fs) && Legal(fs, r) && p < NR_INODE && Leaks(fs, r, p)
    requires Inv(Step(fs, r).0) && Shape(Step(fs, r).0) && LegalRun(Step(fs, r).0, rs)
    requires var fs' := Exec(Step(fs, r).0, rs);
             Inv(fs') && Shape(fs') && Legal(fs', Unlink(path)) && Lookup(fs', path) == Step(fs, r).0.table[p].num
    ensures Step(Exec(Step(fs, r).0, rs), Unlink(path)).1 != Done
  {
    assert Spare(fs, p) >= 0 by {
      assert References(fs.fdt, p) <= fs.table[p].cnt;
    }
    hide Inv, Step, Legal, Lookup, Exec, LegalRun, Spare;
    assert Step(fs, r).1 == Failed;
    StepSpare(fs, r, p);
    LeakedForever(Step(fs, r).0, rs, p, path);
  }
}
