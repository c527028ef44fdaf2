/** Whole runs: files keep their contents unless a request is for them, and what was written
    is read back. */
module FsTheorems {
  import opened FsBits
  import opened FsMaps
  import opened FsInodes
  import opened FsDirectory
  import opened FsEntries
  import opened FsState
  import opened FsInvariant
  import opened FsTables
  import opened FsCreate
  import opened FsRemove
  import opened FsRuns
  import opened FsStore
  import opened FsRefine

  // ---------------------------------------------------------------- opening

  /** The disk is the same unless a file is made. */
  lemma OpenInodeView(fs: Fs, path: seq<byte>, flags: nat, name: seq<byte>)
    requires Inv(fs) && Shape(fs) && ValidPath(path) && Lookup(fs, path) < MAP_BITS && GoodName(name)
    requires CreatesNew(fs, path, flags) ==> NameFits(fs, StripPath(path).name) && RoomLeft(fs) && HasRoom(fs)
    ensures var r := OpenInode(fs, path, flags);
            && Inv(r.0) && Shape(r.0)
            && ViewOf(r.0, name) == if CreatesNew(fs, path, flags) && StripPath(path).name == name && r.1.At?
                                    then File([]) else ViewOf(fs, name)
  {
    hide Inv, Get, Lookup, References, CreateFile, CanCreate, RoomLeft, HasRoom, Created;
    OpenInodeInv(fs, path, flags);
    InvShape(OpenInode(fs, path, flags).0);
    if CreatesNew(fs, path, flags) {
      var made := StripPath(path).name;
      CreateFacts(fs, made, path);
      LookupUnused(fs, path);
      if CreateFile(fs, made).1.At? {
        CreatedView(fs, made, FirstFree(fs.imapBits), FirstFree(fs.smapBits) / FILE_SECTS, CreateFile(fs, made).1.p, name);
      }
    } else if !Creates(flags) && StripPath(path).Name? {
      LookupInUse(fs, path);
      var nr := Lookup(fs, path);
      GetNothing(fs.table, fs.inodes, nr);
      if nr != 0 && Get(fs.table, fs.inodes, nr).1.At? {
        GetInv(fs, nr);
        RootFacts(fs);
        RootFacts(fs.(table := Get(fs.table, fs.inodes, nr).0));
      }
      SameDiskView(fs, OpenInode(fs, path, flags).0, name);
    }
  }

  lemma OpenView(fs: Fs, caller: nat, path: seq<byte>, flags: nat, name: seq<byte>)
    requires Inv(fs) && Shape(fs) && ValidPath(path) && caller < |fs.filp| && Lookup(fs, path) < MAP_BITS && GoodName(name)
    requires CreatesNew(fs, path, flags) ==> NameFits(fs, StripPath(path).name) && RoomLeft(fs) && HasRoom(fs)
    ensures var r := OpenFile(fs, caller, path, flags);
            && Inv(r.0) && Shape(r.0)
            && ViewOf(r.0, name) == if CreatesNew(fs, path, flags) && StripPath(path).name == name && r.1.Fd?
                                    then File([]) else ViewOf(fs, name)
  {
    hide Inv, References, OpenInode, Lookup, ViewOf, RoomLeft, HasRoom, CreatesNew;
    var fd, d := FreeFd(fs.filp[caller], NR_FILES), FreeDesc(fs.fdt, NR_FILE_DESC);
    OpenInv(fs, caller, path, flags);
    InvShape(OpenFile(fs, caller, path, flags).0);
    OpenInodeView(fs, path, flags, name);
    OpenInodeInv(fs, path, flags);
    var r := OpenInode(fs, path, flags);
    if fd != NR_FILES && d != NR_FILE_DESC && r.1.At? {
      SameDiskView(r.0, Attach(r.0, caller, fd, d, flags, r.1.p), name);
    }
  }

  // ---------------------------------------------------------------- removing

  /** A path stands for what its name stands for. */
  lemma LookupOfName(fs: Fs, path: seq<byte>)
    requires Inv(fs) && Shape(fs) && ValidPath(path) && StripPath(path).Name?
    ensures Lookup(fs, StripPath(path).name) == Lookup(fs, path)
    ensures StripPath(path).name == [] ==> Lookup(fs, path) == ROOT_INODE
  {
    RootFacts(fs);
    hide Inv, FindName;
    StripPathOfName(StripPath(path).name);
  }

  lemma UnlinkView(fs: Fs, path: seq<byte>, name: seq<byte>)
    requires Inv(fs) && Shape(fs) && Legal(fs, Unlink(path)) && Consistent(fs, path) && GoodName(name)
    requires Inv(UnlinkFile(fs, path).0) && Shape(UnlinkFile(fs, path).0)
    ensures var r := UnlinkFile(fs, path);
            ViewOf(r.0, name) == if StripPath(path) == Name(name) && r.1 == Done then Absent else ViewOf(fs, name)
  {
    hide Inv, Get, Lookup, References, Compact, InodeOk, ViewOf, FirstWith;
    LookupInUse(fs, path);
    var nr := Lookup(fs, path);
    if path != [SLASH] && nr != 0 && StripPath(path).Name? && Get(fs.table, fs.inodes, nr).1.At? {
      var g := Get(fs.table, fs.inodes, nr);
      GetInv(fs, nr);
      RootFacts(fs);
      RootFacts(fs.(table := g.0));
      if Removable(g.0, g.1.p) {
        LookupOfName(fs, path);
        RemovedInodes(fs, g.0, nr, g.1.p, EntryOf(fs, nr));
        RemovedView(fs, UnlinkFile(fs, path).0, StripPath(path).name, nr, EntryOf(fs, nr), name);
      } else {
        SameDiskView(fs, fs.(table := g.0), name);
      }
    }
  }

  lemma RemovedInodes(fs: Fs, t: seq<Slot>, nr: nat, p: nat, e: nat)
    requires Shape(fs) && |t| == |fs.table| && p < |t| && 0 < nr < MAP_BITS && Mapped(fs, t, p) && e < DirSize(fs.table) / 16
    requires fs.table[ROOT_SLOT].num == ROOT_INODE && fs.table[ROOT_SLOT].ino == fs.inodes[ROOT_INODE - 1]
    requires fs.table[ROOT_SLOT].ino.mode == I_DIRECTORY
    ensures var fs' := Unnamed(Released(fs, t, nr, p), e);
            && fs'.nSmap == fs.nSmap && fs'.data == fs.data && fs'.dir == fs.dir[e := NO_ENTRY] && |fs'.inodes| == NR_INODES
            && forall i | 0 <= i < NR_INODES && i != nr - 1 :: SameFile(fs.inodes[i], fs'.inodes[i])
  {
    hide SetRange, ShrunkSize;
  }

  // ---------------------------------------------------------------- one request

  /** After a request, every name stands for what ViewAfter says. */
  lemma StepView(fs: Fs, r: Request, name: seq<byte>)
    requires Inv(fs) && Shape(fs) && Legal(fs, r) && GoodName(name)
    requires Inv(Step(fs, r).0) && Shape(Step(fs, r).0)
    ensures ViewAfter(fs, r, name, ViewOf(Step(fs, r).0, name))
  {
    hide Inv, OpenFile, ReadFile, UnlinkFile, Lookup, ViewOf, RoomLeft;
    match r {
      case Open(caller, path, flags) =>
        LookupInUse(fs, path);
        if CreatesNew(fs, path, flags) {
          RoomLeftFacts(fs);
        }
        OpenView(fs, caller, path, flags, name);
      case Close(caller, fd) =>
        OpenFacts(fs, caller, fd);
        SameDiskView(fs, CloseFile(fs, caller, fd), name);
      case Read(caller, fd, len) =>
        OpenFacts(fs, caller, fd);
        if ReadsAndWrites(DescOf(fs, caller, fd).mode) {
          ReadView(fs, caller, fd, len, name);
        } else {
          ReadDenied(fs, caller, fd, len);
        }
      case Write(caller, fd, bytes) =>
        OpenFacts(fs, caller, fd);
        if ReadsAndWrites(DescOf(fs, caller, fd).mode) {
          WriteFacts(fs, caller, fd, bytes);
          WriteView(fs, WriteFile(fs, caller, fd, bytes).0, SlotOf(fs, caller, fd).num, DescOf(fs, caller, fd).pos, bytes, name);
        }
      case Unlink(path) =>
        UnlinkConsistent(fs, path);
        UnlinkView(fs, path, name);
    }
  }

  // ---------------------------------------------------------------- runs

  /** The request is for the file with the name: it writes to it, reads past its end, makes it or
      removes it. */
  ghost predicate Touches(fs: Fs, r: Request, name: seq<byte>)
    requires Inv(fs) && Shape(fs) && Legal(fs, r)
  {
    WritesTo(fs, r, name) || ReadsPast(fs, r, name) || MakesNew(fs, r, name) || Deletes(fs, r, name)
  }

  ghost predicate Untouched(fs: Fs, rs: seq<Request>, name: seq<byte>)
    requires Inv(fs) && Shape(fs) && LegalRun(fs, rs)
    decreases |rs|
  {
    rs == [] ||
    (StepInv(fs, rs[0]);
     Step(fs, rs[0]).1 == Panic || (!Touches(fs, rs[0], name) && Untouched(Step(fs, rs[0]).0, rs[1..], name)))
  }

  /** Through any run of requests in which none is for the file, what its name stands for stays
      as it is, whatever happens to other files. */
  lemma {:induction false} NonInterference(fs: Fs, rs: seq<Request>, name: seq<byte>)
    requires Inv(fs) && Shape(fs) && LegalRun(fs, rs) && GoodName(name) && Untouched(fs, rs, name)
    ensures Inv(Exec(fs, rs)) && Shape(Exec(fs, rs)) && ViewOf(Exec(fs, rs), name) == ViewOf(fs, name)
    decreases |rs|
  {
    hide Inv, Step, ViewOf, Lookup, Legal;
    ReachableInv(fs, rs);
    if rs != [] {
      StepInv(fs, rs[0]);
      if Step(fs, rs[0]).1 != Panic {
        StepView(fs, rs[0], name);
        NonInterference(Step(fs, rs[0]).0, rs[1..], name);
      }
    }
  }

  /** Bytes written to a file are what a later read returns for them, whichever process reads
      and through whichever descriptor, when no request in between is for that file. */
  lemma WrittenIsRead(fs: Fs, w: Request, rs: seq<Request>, r: Request, name: seq<byte>)
    requires Inv(fs) && Shape(fs) && GoodName(name) && w.Write? && r.Read?
    requires Legal(fs, w) && WritesTo(fs, w, name)
    requires Inv(Step(fs, w).0) && Shape(Step(fs, w).0)
    requires var fs1 := Step(fs, w).0; LegalRun(fs1, rs) && Untouched(fs1, rs, name)
    requires var fs2 := Exec(Step(fs, w).0, rs); Inv(fs2) && Shape(fs2) && Legal(fs2, r) && ReadsFrom(fs2, r, name)
    ensures var fs2 := Exec(Step(fs, w).0, rs);
            var at, from := DescOf(fs, w.caller, w.fd).pos, DescOf(fs2, r.caller, r.fd).pos;
            var reply := Step(fs2, r).1;
            && reply.Bytes? && |reply.bytes| <= r.len
            && forall k | 0 <= k < |w.bytes| && from <= at + k < from + r.len ::
                 at + k - from < |reply.bytes| && reply.bytes[at + k - from] == w.bytes[k]
  {
    hide Inv, ViewOf, Lookup, Exec, LegalRun, Untouched, WriteFile, ReadFile;
    var fs1 := Step(fs, w).0;
    var fs2 := Exec(fs1, rs);
    StepView(fs, w, name);
    NonInterference(fs1, rs, name);
    OpenFacts(fs2, r.caller, r.fd);
    LookupInUse(fs2, name);
    ViewIs(fs2, name);
    ReadReply(fs2, r.caller, r.fd, r.len, ViewOf(fs2, name));
    PatchedAt(ViewOf(fs, name).bytes, DescOf(fs, w.caller, w.fd).pos, w.bytes);
  }

  /** The request reads from the file with the name. */
  ghost predicate ReadsFrom(fs: Fs, r: Request, name: seq<byte>)
    requires Inv(fs) && Shape(fs) && Legal(fs, r)
  {
    r.Read? && ReadsAndWrites(DescOf(fs, r.caller, r.fd).mode) && SlotOf(fs, r.caller, r.fd).num == Lookup(fs, name)
  }
}
