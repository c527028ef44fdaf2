/** Requests while nothing is open: a file is made and closed, or removed. Runs from a new file
    system are put together from these. */
module FsIdle {
  import opened Options
  import opened FsBits
  import opened FsMaps
  import opened FsInodes
  import opened FsDirectory
  import opened FsEntries
  import opened FsState
  import opened FsInvariant
  import opened FsCreate
  import opened FsRuns
  import opened FsStore
  import opened FsReferences
  import opened FsUndo
  import opened FsNames

  /** Nothing is open, and only the directory's inode is loaded. */
  ghost predicate Idle(fs: Fs) {
    && Inv(fs) && Shape(fs) && |fs.filp| > 0
    && (forall p | 0 < p < NR_INODE :: fs.table[p].cnt == 0)
    && (forall d | 0 <= d < NR_FILE_DESC :: fs.fdt[d].slot == None)
    && (forall fd | 0 <= fd < NR_FILES :: fs.filp[0][fd] == None)
  }

  // ---------------------------------------------------------------- runs

  /** The run of legal requests leads from fs to end, without a panic. */
  ghost predicate Leads(fs: Fs, rs: seq<Request>, end: Fs)
    decreases |rs|
  {
    && Inv(fs) && Shape(fs)
    && if rs == [] then end == fs
       else Legal(fs, rs[0]) && Step(fs, rs[0]).1 != Panic && Leads(Step(fs, rs[0]).0, rs[1..], end)
  }

  lemma {:induction false} LeadsExec(fs: Fs, rs: seq<Request>, end: Fs)
    requires Leads(fs, rs, end)
    ensures Inv(fs) && Shape(fs) && LegalRun(fs, rs) && Exec(fs, rs) == end
    decreases |rs|
  {
    hide Inv, Step, Legal;
    if rs != [] {
      StepInv(fs, rs[0]);
      LeadsExec(Step(fs, rs[0]).0, rs[1..], end);
    }
  }

  lemma {:induction false} LeadsOn(a: Fs, rs: seq<Request>, b: Fs, rs': seq<Request>, c: Fs)
    requires Leads(a, rs, b) && Leads(b, rs', c)
    ensures Leads(a, rs + rs', c)
    decreases |rs|
  {
    hide Inv, Step, Legal;
    if rs == [] {
      assert rs + rs' == rs';
    } else {
      assert (rs + rs')[1..] == rs[1..] + rs';
      LeadsOn(Step(a, rs[0]).0, rs[1..], b, rs', c);
    }
  }

  lemma LeadsOne(fs: Fs, r: Request)
    requires Inv(fs) && Shape(fs) && Legal(fs, r) && Step(fs, r).1 != Panic
    ensures Leads(fs, [r], Step(fs, r).0)
  {
    StepInv(fs, r);
    hide Inv, Step, Legal;
    assert [r][1..] == [];
  }

  lemma LeadsTwo(fs: Fs, a: Request, b: Request)
    requires Inv(fs) && Shape(fs) && Legal(fs, a) && Step(fs, a).1 != Panic
    requires var fs1 := Step(fs, a).0; Inv(fs1) && Shape(fs1) && Legal(fs1, b) && Step(fs1, b).1 != Panic
    ensures Leads(fs, [a] + [b], Step(Step(fs, a).0, b).0)
  {
    hide Inv, Step, Legal;
    LeadsOne(fs, a);
    LeadsOne(Step(fs, a).0, b);
    LeadsOn(fs, [a], Step(fs, a).0, [b], Step(Step(fs, a).0, b).0);
  }

  // ---------------------------------------------------------------- making a file

  /** O_CREAT | O_RDWR */
  const MAKE: nat := 3

  /** Process 0 makes a file and closes it. */
  function MakeRun(name: seq<byte>): seq<Request> { [Open(0, name, MAKE)] + [Close(0, 0)] }

  lemma IdleTables(fs: Fs)
    requires Idle(fs)
    ensures FreeFd(fs.filp[0], NR_FILES) == 0 && FreeDesc(fs.fdt, NR_FILE_DESC) == 0 && FindFree(fs.table, NR_INODE) >= 0
  {
    hide Inv, FreeFd, FreeDesc, FindFree;
    assert fs.filp[0][0] == None && fs.fdt[0].slot == None && fs.table[1].cnt == 0;
  }

  lemma IdleCreates(fs: Fs, name: seq<byte>)
    requires Idle(fs) && |name| <= 12 && HasRoom(fs)
    ensures CreateFile(fs, name).1.At?
  {
    IdleTables(fs);
    hide Inv, FirstFree, Created, FindFree, FindUsed;
  }

  lemma IdleOpens(fs: Fs, name: seq<byte>)
    requires Idle(fs) && GoodName(name) && Lookup(fs, name) == 0 && RoomLeft(fs)
    ensures CanOpen(fs, 0, name, MAKE) && CreatesNew(fs, name, MAKE) && StripPath(name) == Name(name)
    ensures Opened(fs, 0, name, MAKE).1 == Fd(0)
  {
    StripPathOfName(name);
    RoomLeftFacts(fs);
    IdleTables(fs);
    IdleCreates(fs, name);
    LookupInUse(fs, name);
    hide Inv, Lookup, FirstFree, RoomLeft, HasRoom, CreateFile, FreeFd, FreeDesc, Attach;
  }

  lemma MakeIdle(fs: Fs, name: seq<byte>) returns (end: Fs, p: nat)
    requires Idle(fs) && GoodName(name) && Lookup(fs, name) == 0 && RoomLeft(fs) && NameFits(fs, name)
    ensures Leads(fs, MakeRun(name), end) && Idle(end)
    ensures MadeAndClosed(fs, end, name, FirstFree(fs.imapBits), FirstFree(fs.smapBits) / FILE_SECTS, p)
  {
    IdleOpens(fs, name);
    assert Legal(fs, Open(0, name, MAKE));
    hide Inv, Lookup, FirstFree, RoomLeft, Opened, Made, CreateFile, HasRoom, NameFits, MadeAndClosed, Step, Legal, Idle;
    Make(fs, 0, name, MAKE, name);
    var nr, s := FirstFree(fs.imapBits), FirstFree(fs.smapBits) / FILE_SECTS;
    p := CreateFile(fs, name).1.p;
    var fs1 := Step(fs, Open(0, name, MAKE)).0;
    CloseMade(fs, fs1, 0, 0, MAKE, name, nr, s, p);
    ClosesDone(fs1);
    end := Step(fs1, Close(0, 0)).0;
    LeadsTwo(fs, Open(0, name, MAKE), Close(0, 0));
    MadeIdle(fs, end, name, nr, s, p);
  }

  lemma ClosesDone(fs: Fs)
    requires Inv(fs) && Shape(fs) && Legal(fs, Close(0, 0))
    ensures Step(fs, Close(0, 0)).1 != Panic
  {
    hide Inv;
  }

  lemma MadeIdle(fs: Fs, end: Fs, name: seq<byte>, nr: nat, s: nat, p: nat)
    requires Idle(fs) && Inv(end) && Shape(end) && MadeAndClosed(fs, end, name, nr, s, p)
    ensures Idle(end)
  {
    hide Inv;
  }

  // ---------------------------------------------------------------- removing a file

  /** The file with the name, in entry e, is gone. */
  ghost predicate Gone(fs: Fs, end: Fs, e: nat)
    requires Shape(fs) && e < |fs.dir|
  {
    && Shape(end) && end.nSmap == fs.nSmap && end.data == fs.data && end.filp == fs.filp && end.fdt == fs.fdt
    && end.dir == fs.dir[e := NO_ENTRY] && DirSize(end.table) == ShrunkSize(fs.dir, DirSize(fs.table), e)
    && (forall i | 0 <= i < NR_INODES && i != ROOT_INODE - 1 && i + 1 != fs.dir[e].nr :: end.inodes[i] == fs.inodes[i])
    && 0 < fs.dir[e].nr < MAP_BITS && end.imapBits == fs.imapBits[fs.dir[e].nr := false] && InMap(fs, fs.dir[e].nr)
    && (var x := fs.inodes[fs.dir[e].nr - 1]; end.smapBits == SetRange(fs.smapBits, ExtentBit(fs.nSmap, x), x.nr, false))
    && end.table[ROOT_SLOT].num == ROOT_INODE && end.table[ROOT_SLOT].cnt > 0
    && forall p | 0 < p < NR_INODE :: end.table[p].cnt == 0
  }

  lemma NotLoaded(fs: Fs, nr: nat)
    requires Idle(fs) && nr != ROOT_INODE
    ensures FindUsed(fs.table, nr, NR_INODE) < 0 && FindFree(fs.table, NR_INODE) >= 0
  {
    IdleTables(fs);
    hide FindFree, DirOk, InodesOk;
  }

  /** Entry e has a regular file with the name. */
  ghost predicate IsFile(fs: Fs, name: seq<byte>, e: nat)
    requires Shape(fs)
  {
    GoodName(name) && Names(fs.dir, e, name) && fs.dir[e].nr <= NR_INODES && fs.inodes[fs.dir[e].nr - 1].mode == I_REGULAR
  }

  lemma FileEntry(fs: Fs, name: seq<byte>, e: nat)
    requires Inv(fs) && Shape(fs) && IsFile(fs, name, e)
    ensures StripPath(name) == Name(name) && name != [SLASH] && ValidPath(name) && fs.dir[e].nr != ROOT_INODE
    ensures Lookup(fs, name) == fs.dir[e].nr && EntryOf(fs, fs.dir[e].nr) == e
  {
    StripPathOfName(name);
    LookupEntry(fs, name, e);
    RootFacts(fs);
    assert DirOk(fs.dir, DirSize(fs.table));
    hide Inv, Lookup, Padded, StripPath;
    SearchCovers(fs.dir, DirSize(fs.table), e);
    OnlyNumber(fs.dir, fs.dir[e].nr, e, DirSize(fs.table) / 16);
  }

  lemma RemoveIdle(fs: Fs, name: seq<byte>, e: nat)
    requires Idle(fs) && IsFile(fs, name, e)
    ensures Unlinked(fs, name).1 == Done && Gone(fs, Unlinked(fs, name).0, e)
    ensures Lookup(fs, name) == fs.dir[e].nr && EntryOf(fs, Lookup(fs, name)) == e
  {
    FileEntry(fs, name, e);
    NotLoaded(fs, fs.dir[e].nr);
    hide Inv, Lookup, Unlinked, FindUsed, FindFree, Padded, ShrunkSize, EntryOf, StripPath, SetRange;
    UnlinkSucceeds(fs, name);
    UnlinkedDir(fs, name);
  }

  /** A file that is not last in the directory is removed by a legal request. */
  lemma RemoveInside(fs: Fs, name: seq<byte>, e: nat)
    requires Idle(fs) && IsFile(fs, name, e) && e + 1 != DirSize(fs.table) / 16
    ensures var end := Unlinked(fs, name).0;
            Shape(end) && Leads(fs, [Unlink(name)], end) && Idle(end) && Gone(fs, end, e)
  {
    RemoveIdle(fs, name, e);
    FileEntry(fs, name, e);
    assert Legal(fs, Unlink(name)) by {
      hide Inv, Lookup, EntryOf, StripPath;
    }
    StepIsUnlinked(fs, name);
    hide Inv, Lookup, Unlinked, Legal, Step, EntryOf, StripPath;
    LeadsOne(fs, Unlink(name));
    StepInv(fs, Unlink(name));
  }

  lemma StepIsUnlinked(fs: Fs, path: seq<byte>)
    requires Inv(fs) && Shape(fs) && Legal(fs, Unlink(path))
    ensures Step(fs, Unlink(path)) == Unlinked(fs, path)
  {
    hide Inv, Legal, Unlinked;
  }

  lemma OnlyNumber(dir: seq<Entry>, nr: nat, e: nat, n: nat)
    requires Distinct(dir) && e < n <= |dir| && nr != 0 && dir[e].nr == nr
    ensures FirstWith(dir, nr, n) == e
  {
    var f := FirstWith(dir, nr, n);
    assert f < e || f == e || e < f;
  }
}
