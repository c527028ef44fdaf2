/** What a request is answered, and what of the disk it leaves alone. */
module FsFrame {
  import opened FsBits
  import opened FsMaps
  import opened FsInodes
  import opened FsDirectory
  import opened FsEntries
  import opened FsTransfer
  import opened FsState
  import opened FsInvariant
  import opened FsRuns
  import opened FsRefine
  import opened FsNames
  import opened FsDescriptors

  // ---------------------------------------------------------------- answers

  /** A process has no closed file left, or no descriptor is free. */
  ghost predicate NothingFree(fs: Fs, caller: nat) {
    || (forall f: nat | f < NR_FILES :: !Closed(fs, caller, f))
    || (forall d | 0 <= d < |fs.fdt| :: fs.fdt[d].slot.Some?)
  }

  /** The inode is not in the table, and there is no slot to load it into. */
  predicate NoSlot(fs: Fs, nr: nat)
    requires |fs.table| == NR_INODE
  {
    FindFree(fs.table, NR_INODE) < 0 && (nr == 0 || FindUsed(fs.table, nr, NR_INODE) < 0)
  }

  /** An open request fails, if and only if the path is bad, or the file is to be made and exists, or
      it is not to be made and does not exist. It panics if and only if no file or descriptor is
      free, or there is no slot for the inode of a file that could be opened otherwise. */
  lemma OpenAnswer(fs: Fs, caller: nat, path: seq<byte>, flags: nat)
    requires Inv(fs) && Shape(fs) && Legal(fs, Open(caller, path, flags))
    ensures var reply, full := Step(fs, Open(caller, path, flags)).1, NothingFree(fs, caller);
            && (reply == Failed <==> !full && (StripPath(path).BadPath? || (Creates(flags) <==> Lookup(fs, path) != 0)))
            && (reply.Fd? || reply == Failed || reply == Panic)
            && (reply == Panic <==>
                  || full
                  || (NoSlot(fs, Lookup(fs, path)) && StripPath(path).Name? && (Creates(flags) <==> Lookup(fs, path) == 0)))
  {
    LegalServes(fs, caller, path, flags);
    FullTables(fs, caller);
    BadPathNothing(fs, path);
    InodeAnswer(fs, path, flags);
    hide Inv, Lookup, FreeFd, FreeDesc, NameFits, RoomLeft, HasRoom, OpenInode, Attach, NothingFree, NoSlot, StripPath, Legal, Step;
  }

  lemma InodeAnswer(fs: Fs, path: seq<byte>, flags: nat)
    requires Shape(fs) && Lookup(fs, path) <= NR_INODES && (CreatesNew(fs, path, flags) ==> HasRoom(fs))
    ensures OpenInode(fs, path, flags).1 == NoInode <==> StripPath(path).BadPath? || (Creates(flags) <==> Lookup(fs, path) != 0)
    ensures OpenInode(fs, path, flags).1 == TableFull <==>
              NoSlot(fs, Lookup(fs, path)) && StripPath(path).Name? && (Creates(flags) <==> Lookup(fs, path) == 0)
  {
    BadPathNothing(fs, path);
    hide Lookup, Created, FindUsed, FindFree, FirstFree, StripPath;
  }

  lemma BadPathNothing(fs: Fs, path: seq<byte>)
    requires Shape(fs)
    ensures StripPath(path).BadPath? ==> Lookup(fs, path) == 0
  {}

  lemma FullTables(fs: Fs, caller: nat)
    requires Shape(fs) && caller < |fs.filp|
    ensures NothingFree(fs, caller) <==> FreeFd(fs.filp[caller], NR_FILES) == NR_FILES || FreeDesc(fs.fdt, NR_FILE_DESC) == NR_FILE_DESC
  {
    var f, d := FreeFd(fs.filp[caller], NR_FILES), FreeDesc(fs.fdt, NR_FILE_DESC);
    assert f < NR_FILES ==> Closed(fs, caller, f);
    hide FreeFd, FreeDesc;
  }

  /** An unlink request panics if and only if the path stands for something whose inode is not in the
      table, and there is no slot to load it into. What it does not remove otherwise it refuses. */
  lemma UnlinkAnswer(fs: Fs, path: seq<byte>)
    requires Inv(fs) && Shape(fs)
    ensures var reply, nr := Unlinked(fs, path).1, Lookup(fs, path);
            && (reply == Panic <==> path != [SLASH] && StripPath(path).Name? && nr != 0 && NoSlot(fs, nr))
            && (reply == Panic || reply == Done || reply == Failed)
  {
    UnlinkConsistent(fs, path);
    hide Inv, Lookup, FindUsed, FindFree, StripPath, Released, Unnamed, FirstWith;
  }

  // ---------------------------------------------------------------- the disk

  /** The request makes or removes a file. */
  ghost predicate MakesOrRemoves(fs: Fs, r: Request)
    requires Inv(fs) && Shape(fs) && Legal(fs, r)
  {
    (r.Open? && CreatesNew(fs, r.path, r.flags)) || (r.Unlink? && Step(fs, r).1 == Done)
  }

  /** The bytes of the disk that a write is for. */
  ghost predicate InWrite(fs: Fs, r: Request, a: nat)
    requires Inv(fs) && Shape(fs) && Legal(fs, r)
  {
    r.Write? && IsOpen(fs, r.caller, r.fd) && ReadsAndWrites(DescOf(fs, r.caller, r.fd).mode)
    && var from := Base(fs.nSmap, SlotOf(fs, r.caller, r.fd).ino) + DescOf(fs, r.caller, r.fd).pos;
    from <= a < from + |r.bytes|
  }

  /** The inode is the one of the file that is read or written. */
  ghost predicate Moves(fs: Fs, r: Request, i: nat)
    requires Inv(fs) && Shape(fs) && Legal(fs, r)
  {
    (r.Read? || r.Write?) && IsOpen(fs, r.caller, r.fd) && SlotOf(fs, r.caller, r.fd).num == i
  }

  /** Apart from making and removing files, requests change the bytes that are written, and the size
      of the file that is read or written, and nothing else on disk. */
  ghost predicate DiskKept(fs: Fs, r: Request, fs': Fs)
    requires Inv(fs) && Shape(fs) && Legal(fs, r)
  {
    && fs'.nSmap == fs.nSmap && fs'.imapBits == fs.imapBits && fs'.smapBits == fs.smapBits && fs'.dir == fs.dir
    && |fs'.data| == |fs.data| && |fs'.inodes| == NR_INODES
    && (forall a: nat | a < |fs.data| && !InWrite(fs, r, a) :: fs'.data[a] == fs.data[a])
    && forall i | 0 <= i < NR_INODES ::
         fs'.inodes[i] == if Moves(fs, r, i + 1) then fs.inodes[i].(size := fs'.inodes[i].size) else fs.inodes[i]
  }

  lemma SameInodes(inodes: seq<Inode>)
    ensures forall i | 0 <= i < |inodes| :: inodes[i] == inodes[i].(size := inodes[i].size)
  {}

  lemma OpenDisk(fs: Fs, caller: nat, path: seq<byte>, flags: nat)
    requires Inv(fs) && Shape(fs) && Legal(fs, Open(caller, path, flags)) && !CreatesNew(fs, path, flags)
    ensures DiskKept(fs, Open(caller, path, flags), Step(fs, Open(caller, path, flags)).0)
  {
    LegalServes(fs, caller, path, flags);
    hide Inv, Lookup, FreeFd, FreeDesc, NameFits, RoomLeft, StripPath, Get;
  }

  lemma UnlinkDisk(fs: Fs, path: seq<byte>)
    requires Inv(fs) && Shape(fs) && Legal(fs, Unlink(path)) && Step(fs, Unlink(path)).1 != Done
    ensures DiskKept(fs, Unlink(path), Step(fs, Unlink(path)).0)
  {
    StepUnlink(fs, path);
    hide Inv, Lookup, StripPath, Get, Legal, Released, Unnamed, FirstWith;
  }

  lemma ReadDisk(fs: Fs, caller: nat, fd: nat, len: nat)
    requires Inv(fs) && Shape(fs) && Legal(fs, Read(caller, fd, len))
    ensures DiskKept(fs, Read(caller, fd, len), Step(fs, Read(caller, fd, len)).0)
  {
    OpenFacts(fs, caller, fd);
    SameInodes(fs.inodes);
    hide Inv, Cut, Transferred;
  }

  lemma WriteDisk(fs: Fs, caller: nat, fd: nat, bytes: seq<byte>)
    requires Inv(fs) && Shape(fs) && Legal(fs, Write(caller, fd, bytes))
    ensures DiskKept(fs, Write(caller, fd, bytes), Step(fs, Write(caller, fd, bytes)).0)
  {
    OpenFacts(fs, caller, fd);
    SameInodes(fs.inodes);
    hide Inv, Put, WriteFile, Shape;
    if ReadsAndWrites(DescOf(fs, caller, fd).mode) {
      WriteFacts(fs, caller, fd, bytes);
      WriteMap(fs, caller, fd, bytes);
      PutAt(fs.data, Base(fs.nSmap, SlotOf(fs, caller, fd).ino) + DescOf(fs, caller, fd).pos, bytes);
    } else {
      WriteDenied(fs, caller, fd, bytes);
    }
  }

  lemma WriteMap(fs: Fs, caller: nat, fd: nat, bytes: seq<byte>)
    requires Shape(fs) && IsOpen(fs, caller, fd) && 0 < SlotOf(fs, caller, fd).num <= NR_INODES
    requires ReadsAndWrites(DescOf(fs, caller, fd).mode) && InExtent(fs, caller, fd, |bytes|)
    ensures WriteFile(fs, caller, fd, bytes).0.smapBits == fs.smapBits && |WriteFile(fs, caller, fd, bytes).0.inodes| == NR_INODES
  {
    hide Put;
  }

  lemma WriteDenied(fs: Fs, caller: nat, fd: nat, bytes: seq<byte>)
    requires Shape(fs) && IsOpen(fs, caller, fd) && 0 < SlotOf(fs, caller, fd).num <= NR_INODES
    requires !ReadsAndWrites(DescOf(fs, caller, fd).mode)
    ensures WriteFile(fs, caller, fd, bytes) == (fs, Failed)
  {}

  lemma StepDisk(fs: Fs, r: Request)
    requires Inv(fs) && Shape(fs) && Legal(fs, r) && !MakesOrRemoves(fs, r)
    ensures DiskKept(fs, r, Step(fs, r).0)
  {
    hide Inv, Legal, Step, Lookup, DiskKept;
    match r {
      case Open(caller, path, flags) => OpenDisk(fs, caller, path, flags);
      case Close(caller, fd) => CloseDisk(fs, caller, fd);
      case Read(caller, fd, len) => ReadDisk(fs, caller, fd, len);
      case Write(caller, fd, bytes) => WriteDisk(fs, caller, fd, bytes);
      case Unlink(path) => UnlinkDisk(fs, path);
    }
  }

  lemma CloseDisk(fs: Fs, caller: nat, fd: nat)
    requires Inv(fs) && Shape(fs) && Legal(fs, Close(caller, fd))
    ensures DiskKept(fs, Close(caller, fd), Step(fs, Close(caller, fd)).0)
  {
    OpenFacts(fs, caller, fd);
    hide Inv;
  }

  /** A file that is removed leaves an inode of zeros; no data is touched, and no other inode but the
      directory's. */
  lemma UnlinkedDisk(fs: Fs, path: seq<byte>)
    requires Inv(fs) && Shape(fs) && Unlinked(fs, path).1 == Done
    ensures var fs', nr := Unlinked(fs, path).0, Lookup(fs, path);
            && 1 < nr < MAP_BITS && |fs'.inodes| == NR_INODES && fs'.inodes[nr - 1] == NO_FILE && fs'.data == fs.data
            && fs'.imapBits == fs.imapBits[nr := false]
            && forall i | 0 <= i < NR_INODES && i + 1 != nr && i + 1 != ROOT_INODE :: fs'.inodes[i] == fs.inodes[i]
  {
    UnlinkedDir(fs, path);
    if Lookup(fs, path) == ROOT_INODE {
      NotRemovable(fs, path);
    }
    hide Inv, Unlinked, Lookup;
  }

  /** A file that is made takes the lowest free number and the first free sectors; no data is
      touched, and no other inode but the directory's. */
  lemma OpenedDisk(fs: Fs, caller: nat, path: seq<byte>, flags: nat)
    requires Inv(fs) && Shape(fs) && CanOpen(fs, caller, path, flags) && CreatesNew(fs, path, flags)
    requires Opened(fs, caller, path, flags).1.Fd?
    ensures var fs' := Opened(fs, caller, path, flags).0;
            && fs'.data == fs.data && |fs'.inodes| == NR_INODES && |fs'.imapBits| == MAP_BITS && |fs'.smapBits| == |fs.smapBits|
            && exists nr: nat, f: nat ::
                 && 0 < nr < MAP_BITS && IsFirstFree(fs.imapBits, nr) && fs'.imapBits == fs.imapBits[nr := true]
                 && IsFirstFree(fs.smapBits, f) && f + FILE_SECTS <= |fs.smapBits|
                 && (forall b | 0 <= b < |fs.smapBits| :: fs'.smapBits[b] == (fs.smapBits[b] || f <= b < f + FILE_SECTS))
                 && forall i | 0 <= i < NR_INODES && i + 1 != nr && i + 1 != ROOT_INODE :: fs'.inodes[i] == fs.inodes[i]
  {
    OpenedDir(fs, caller, path, flags);
    var nr, f := FirstFree(fs.imapBits), FirstFree(fs.smapBits);
    assert IsFirstFree(fs.imapBits, nr) && IsFirstFree(fs.smapBits, f);
    hide Inv, Opened, Lookup, FirstFree, AddName, FirstUnused;
  }
}
