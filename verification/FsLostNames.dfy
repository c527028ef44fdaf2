/** Runs from a new file system after which a name no longer stands for its file, although the
    file is still there: the conditions of FsNames do fail. */
module FsLostNames {
  import opened Options
  import opened FsBits
  import opened FsDevice
  import opened FsMaps
  import opened FsInodes
  import opened FsDirectory
  import opened FsEntries
  import opened FsState
  import opened FsInvariant
  import opened FsCreate
  import opened FsRuns
  import opened FsStore
  import opened FsUndo
  import opened FsNames
  import opened FsMkfs
  import opened FsIdle

  // ---------------------------------------------------------------- files a, b, c and d

  /** "a", "b", "c", "d" */
  function Letter(i: nat): (r: seq<byte>)
    requires i < 4
    ensures |r| == 1
  {
    [if i == 0 then 97 else if i == 1 then 98 else if i == 2 then 99 else 100]
  }

  lemma LetterNames(i: nat, j: nat)
    requires i < 4 && j < 4
    ensures GoodName(Letter(i)) && (Padded(Letter(i)) == Padded(Letter(j)) ==> i == j)
  {
    assert Padded(Letter(i))[0] == Letter(i)[0] && Padded(Letter(j))[0] == Letter(j)[0];
  }

  /** On a new file system the first n letters were made files of, one after the other, and those
      in `gone` have been removed again. */
  ghost predicate Holed(fs: Fs, n: nat, gone: set<nat>) {
    && Idle(fs) && n <= 4 && DirSize(fs.table) == 48 + 16 * n
    && (forall e | 0 <= e < 3 :: fs.dir[e].nr != 0 && fs.dir[e].name[11] == 0 && forall i | 0 <= i < 4 :: fs.dir[e].name != Padded(Letter(i)))
    && (forall i | 0 <= i < n :: if i in gone then fs.dir[3 + i] == NO_ENTRY else FileAt(fs, i))
    && (forall e | 3 + n <= e < |fs.dir| :: fs.dir[e] == NO_ENTRY)
    && (forall b | 0 <= b < |fs.imapBits| :: fs.imapBits[b] <==> b < 4 + n && b - 4 !in gone)
    && fs.smapBits[0]
    && (forall b | 1 <= b < |fs.smapBits| :: fs.smapBits[b] <==> b < 1 + FILE_SECTS * (1 + n) && (b - 1) / FILE_SECTS - 1 !in gone)
  }

  ghost predicate Filled(fs: Fs, n: nat) { Holed(fs, n, {}) }

  /** File number i is in entry 3 + i and has inode 4 + i and block 1 + i. */
  ghost predicate FileAt(fs: Fs, i: nat)
    requires Shape(fs) && i < 4
  {
    fs.dir[3 + i] == Entry(4 + i, Padded(Letter(i))) && fs.inodes[3 + i] == NewInode(fs.nSmap, 1 + FILE_SECTS * (1 + i))
  }

  lemma NewFilled(fs: Fs)
    requires IsNew(fs) && |fs.filp| > 0
    ensures Filled(fs, 0)
  {
    FreshInv(fs);
    hide Inv;
    assert fs.dir[1] == TtyEntry(0) && fs.dir[2] == TtyEntry(1);
    forall i | 0 <= i < 4 ensures fs.dir[0].name != Padded(Letter(i)) && fs.dir[1].name != Padded(Letter(i)) && fs.dir[2].name != Padded(Letter(i)) {
      assert Padded(DOT)[0] == 46 && Padded(TtyName(0))[1] == 101 && Padded(TtyName(1))[1] == 101;
      assert Padded(Letter(i))[0] == Letter(i)[0] != 46 && Padded(Letter(i))[1] == 0;
    }
  }

  lemma FirstFreeOf(bits: seq<bool>, n: nat)
    requires n < |bits| && forall b | 0 <= b < |bits| :: bits[b] <==> b < n
    ensures FirstFree(bits) == n
  {
    var f := FirstFree(bits);
    assert !bits[n];
    assert f < |bits| ==> !bits[f];
  }

  lemma FilledUsed(fs: Fs, n: nat, e: nat)
    requires Filled(fs, n) && e < 3 + n
    ensures fs.dir[e].nr != 0
  {
    assert e >= 3 ==> FileAt(fs, e - 3);
  }

  /** The next letter can be made a file of. */
  lemma CanFill(fs: Fs, n: nat)
    requires Filled(fs, n) && n < 4 && 1 + FILE_SECTS * (2 + n) <= |fs.smapBits|
    ensures FirstFree(fs.imapBits) == 4 + n && FirstFree(fs.smapBits) / FILE_SECTS == 1 + n
    ensures FirstUnused(fs.dir, DirSize(fs.table) / 16) == DirSize(fs.table) / 16 == 3 + n
    ensures RoomLeft(fs) && GoodName(Letter(n)) && NameFits(fs, Letter(n)) && Lookup(fs, Letter(n)) == 0
  {
    hide Inv, Padded, Lookup, FirstFree, FirstUnused;
    FirstFreeOf(fs.imapBits, 4 + n);
    FirstFreeOf(fs.smapBits, 1 + FILE_SECTS * (1 + n));
    forall e | 0 <= e < 3 + n ensures fs.dir[e].nr != 0 {
      FilledUsed(fs, n, e);
    }
    forall e: nat ensures !Names(fs.dir, e, Letter(n)) {
      if 3 <= e < 3 + n {
        assert FileAt(fs, e - 3);
        LetterNames(e - 3, n);
      }
    }
    LetterNames(n, n);
    LookupNone(fs, Letter(n));
  }

  lemma FillOne(fs: Fs, n: nat) returns (end: Fs)
    requires Filled(fs, n) && n < 4 && 1 + FILE_SECTS * (2 + n) <= |fs.smapBits|
    ensures Leads(fs, MakeRun(Letter(n)), end) && Filled(end, n + 1) && end.nSmap == fs.nSmap && |end.data| == |fs.data|
  {
    CanFill(fs, n);
    hide Leads, Inv, FirstFree, MadeAndClosed, RoomLeft, FirstUnused, Letter, GoodName, NameFits, Lookup;
    var p;
    end, p := MakeIdle(fs, Letter(n));
    MadeFilled(fs, end, n, p);
    hide Filled, Idle;
    MadeSame(fs, end, n, p);
  }

  lemma MadeSame(fs: Fs, end: Fs, n: nat, p: nat)
    requires n < 4 && Shape(fs) && Shape(end) && MadeAndClosed(fs, end, Letter(n), 4 + n, 1 + n, p)
    ensures end.nSmap == fs.nSmap && |end.data| == |fs.data|
  {}

  lemma MadeFilled(fs: Fs, end: Fs, n: nat, p: nat)
    requires Filled(fs, n) && n < 4 && 1 + FILE_SECTS * (2 + n) <= |fs.smapBits| && Idle(end)
    requires FirstUnused(fs.dir, DirSize(fs.table) / 16) == DirSize(fs.table) / 16 == 3 + n
    requires MadeAndClosed(fs, end, Letter(n), 4 + n, 1 + n, p)
    ensures Filled(end, n + 1)
  {
    hide Inv, Padded, FirstUnused, CanCreate, FindUsed, NewInode, Letter, SetRange;
    MadeBits(fs.smapBits, end.smapBits, 1 + FILE_SECTS * (1 + n));
    forall i | 0 <= i < n + 1 ensures FileAt(end, i) {
      assert i < n ==> FileAt(fs, i);
    }
    hide FileAt;
  }

  lemma MadeBits(bits: seq<bool>, bits': seq<bool>, f: nat)
    requires f + FILE_SECTS <= |bits| && bits' == SetRange(bits, f, FILE_SECTS, true)
    requires forall b | 0 <= b < |bits| :: bits[b] <==> b < f
    ensures |bits'| == |bits| && forall b | 0 <= b < |bits| :: bits'[b] <==> b < f + FILE_SECTS
  {}

  /** The first n letters are made files of. */
  function FillRun(n: nat): seq<Request>
    requires n <= 4
  {
    if n == 0 then [] else FillRun(n - 1) + MakeRun(Letter(n - 1))
  }

  lemma {:induction false} FillNew(fs: Fs, n: nat) returns (end: Fs)
    requires IsNew(fs) && |fs.filp| > 0 && n <= 4 && 1 + FILE_SECTS * (1 + n) <= |fs.smapBits|
    ensures Leads(fs, FillRun(n), end) && Filled(end, n) && end.nSmap == fs.nSmap && |end.data| == |fs.data|
  {
    NewFilled(fs);
    hide Filled, MakeRun, Inv, IsNew;
    if n == 0 {
      end := fs;
    } else {
      var mid := FillNew(fs, n - 1);
      FilledShape(mid, n - 1);
      end := FillOne(mid, n - 1);
      hide Leads;
      LeadsOn(fs, FillRun(n - 1), mid, MakeRun(Letter(n - 1)), end);
    }
  }

  lemma FilledShape(fs: Fs, n: nat)
    requires Filled(fs, n)
    ensures Shape(fs) && |fs.smapBits| == fs.nSmap * MAP_BITS
  {}

  // ---------------------------------------------------------------- some of them removed

  lemma HoledFile(fs: Fs, n: nat, gone: set<nat>, i: nat)
    requires Holed(fs, n, gone) && i < n && i !in gone
    ensures Shape(fs) && IsFile(fs, Letter(i), 3 + i) && fs.dir[3 + i].nr == 4 + i
  {
    assert FileAt(fs, i);
    LetterNames(i, i);
    hide Inv, Padded;
  }

  lemma RemovedBits(bits: seq<bool>, bits': seq<bool>, n: nat, gone: set<nat>, i: nat)
    requires 1 + FILE_SECTS * (2 + i) <= |bits| && bits' == SetRange(bits, 1 + FILE_SECTS * (1 + i), FILE_SECTS, false)
    requires forall b | 1 <= b < |bits| :: bits[b] <==> b < 1 + FILE_SECTS * (1 + n) && (b - 1) / FILE_SECTS - 1 !in gone
    ensures |bits'| == |bits|
    ensures forall b | 1 <= b < |bits| :: bits'[b] <==> b < 1 + FILE_SECTS * (1 + n) && (b - 1) / FILE_SECTS - 1 !in gone + {i}
  {}

  lemma GoneHoled(fs: Fs, n: nat, gone: set<nat>, i: nat, end: Fs)
    requires Holed(fs, n, gone) && i + 1 < n && i !in gone && Idle(end) && Gone(fs, end, 3 + i)
    ensures Holed(end, n, gone + {i})
  {
    assert FileAt(fs, i);
    RemovedBits(fs.smapBits, end.smapBits, n, gone, i);
    hide Inv, Padded, SetRange, Letter;
    forall j | 0 <= j < n && j !in gone + {i} ensures FileAt(end, j) {
      assert FileAt(fs, j);
    }
    hide FileAt;
  }

  /** One more of them is removed, which is not the last one. */
  lemma RemoveLetter(fs: Fs, n: nat, gone: set<nat>, i: nat) returns (end: Fs)
    requires Holed(fs, n, gone) && i + 1 < n && i !in gone
    ensures Leads(fs, [Unlink(Letter(i))], end) && Holed(end, n, gone + {i}) && end.nSmap == fs.nSmap
  {
    HoledFile(fs, n, gone, i);
    assert Idle(fs) && DirSize(fs.table) == 48 + 16 * n;
    RemoveInside(fs, Letter(i), 3 + i);
    end := Unlinked(fs, Letter(i)).0;
    hide Inv, Shape, Unlinked, Leads, Letter, Lookup;
    GoneHoled(fs, n, gone, i, end);
  }

  // ---------------------------------------------------------------- a name of twelve characters

  /** Files a and b are made, and a is removed. */
  function HoleBeforeRun(): seq<Request> {
    FillRun(2) + [Unlink(Letter(0))]
  }

  lemma HoleBeforeReached(fs: Fs) returns (end: Fs)
    requires IsNew(fs) && |fs.filp| > 0 && fs.nSmap >= 2
    ensures Leads(fs, HoleBeforeRun(), end) && Holed(end, 2, {0}) && end.nSmap == fs.nSmap
  {
    assert |fs.smapBits| == fs.nSmap * MAP_BITS;
    hide Holed, FillRun, Leads, Letter, IsNew, Inv, Idle, RoomLeft;
    var f := FillNew(fs, 2);
    end := RemoveLetter(f, 2, {}, 0);
    assert {} + {0} == {0};
    LeadsOn(fs, FillRun(2), f, [Unlink(Letter(0))], end);
  }

  lemma TwelveRoom(fs: Fs, name: seq<byte>)
    requires Holed(fs, 2, {0}) && fs.nSmap >= 2 && GoodName(name) && |name| == 12
    ensures RoomLeft(fs) && Lookup(fs, name) == 0 && !NameFits(fs, name)
    ensures FirstUnused(fs.dir, DirSize(fs.table) / 16) == 3 && fs.dir[4] == Entry(5, Padded(Letter(1)))
  {
    assert FileAt(fs, 1);
    assert name[11] in name && Padded(name)[11] == name[11] && Padded(Letter(1))[11] == 0;
    PaddedNotEmpty(name);
    SomeBitFree(fs.nSmap, fs.smapBits, fs.imapBits, fs.inodes);
    FreeBlock(fs.nSmap, fs.smapBits, fs.imapBits, fs.inodes, FirstFree(fs.smapBits));
    hide Inv, Padded, Letter, FirstFree, FirstUnused, Search;
    assert !fs.imapBits[4] && !fs.smapBits[1 + FILE_SECTS];
    SearchNothing(fs.dir, 80, ROOT_INODE, name);
  }

  /** A file with a name of twelve characters is made; it goes into the hole, and b stands for
      nothing any more, although its inode is still in use. */
  lemma TwelveLosesName(fs: Fs, name: seq<byte>)
    requires IsNew(fs) && |fs.filp| > 0 && fs.nSmap >= 2 && GoodName(name) && |name| == 12
    ensures Inv(fs) && Shape(fs) && LegalRun(fs, HoleBeforeRun())
    ensures var end := Exec(fs, HoleBeforeRun());
            && Inv(end) && Shape(end) && Lookup(end, Letter(1)) == 5 && CanOpen(end, 0, name, MAKE)
            && var r := Opened(end, 0, name, MAKE);
            && r.1.Fd? && Shape(r.0) && Lookup(r.0, Letter(1)) == 0 && r.0.imapBits[5]
  {
    var end := HoleBeforeReached(fs);
    LeadsExec(fs, HoleBeforeRun(), end);
    hide LegalRun, Exec, HoleBeforeRun, Leads;
    LoseNext(end, name);
  }

  lemma LoseNext(fs: Fs, name: seq<byte>)
    requires Holed(fs, 2, {0}) && fs.nSmap >= 2 && GoodName(name) && |name| == 12
    ensures Inv(fs) && Shape(fs) && Lookup(fs, Letter(1)) == 5 && CanOpen(fs, 0, name, MAKE)
    ensures var r := Opened(fs, 0, name, MAKE);
            r.1.Fd? && Shape(r.0) && Lookup(r.0, Letter(1)) == 0 && r.0.imapBits[5]
  {
    TwelveRoom(fs, name);
    HoledFile(fs, 2, {0}, 1);
    FileEntry(fs, Letter(1), 4);
    IdleOpens(fs, name);
    assert fs.imapBits[5] && DirOk(fs.dir, 80);
    var dir' := AddName(fs.dir, 3, FirstFree(fs.imapBits), name);
    assert Spills(3, name) && dir'[4].name == Padded(Letter(1)) && dir'[4].nr == 0;
    OnlyEntry(fs.dir, Letter(1), 4);
    assert dir'[3].name == name && Padded(Letter(1))[11] == 0 && name[11] in name;
    hide Inv, Opened, Letter, Padded, FirstFree, FirstUnused, Search, AddName, RoomLeft;
    OpenedDir(fs, 0, name, MAKE);
    SearchFirst(dir', 80, ROOT_INODE, Letter(1), 4);
  }

  // ---------------------------------------------------------------- two holes

  /** Files a, b, c and d are made, and a and b are removed. */
  function TwoHolesRun(): seq<Request> {
    FillRun(4) + ([Unlink(Letter(0))] + [Unlink(Letter(1))])
  }

  lemma TwoHolesReached(fs: Fs) returns (end: Fs)
    requires IsNew(fs) && |fs.filp| > 0 && fs.nSmap >= 3
    ensures Leads(fs, TwoHolesRun(), end) && Holed(end, 4, {0, 1})
  {
    assert |fs.smapBits| == fs.nSmap * MAP_BITS;
    hide Holed, FillRun, Leads, Letter, IsNew, Inv, Idle, RoomLeft;
    var f := FillNew(fs, 4);
    var g := RemoveLetter(f, 4, {}, 0);
    end := RemoveLetter(g, 4, {} + {0}, 1);
    assert {} + {0} + {1} == {0, 1};
    LeadsOn(f, [Unlink(Letter(0))], g, [Unlink(Letter(1))], end);
    LeadsOn(fs, FillRun(4), f, [Unlink(Letter(0))] + [Unlink(Letter(1))], end);
  }

  lemma TwoHolesLive(dir: seq<Entry>)
    requires |dir| >= 6 && (forall e | 0 <= e < 3 :: dir[e].nr != 0) && dir[3].nr == 0 && dir[4].nr == 0 && dir[5].nr != 0
    ensures LiveBelow(dir, 6) == 4
  {
    assert LiveBelow(dir, 0) == 0 && LiveBelow(dir, 1) == 1 && LiveBelow(dir, 2) == 2 && LiveBelow(dir, 3) == 3;
    assert LiveBelow(dir, 4) == 3 && LiveBelow(dir, 5) == 3;
  }

  /** Then d is removed, and c is lost: it is not found any more, and its inode stays in use. */
  lemma TwoHolesLoseName(fs: Fs)
    requires IsNew(fs) && |fs.filp| > 0 && fs.nSmap >= 3
    ensures Inv(fs) && Shape(fs) && LegalRun(fs, TwoHolesRun())
    ensures var end := Exec(fs, TwoHolesRun());
            && Inv(end) && Shape(end) && Lookup(end, Letter(2)) == 6
            && var r := Unlinked(end, Letter(3));
            && r.1 == Done && Shape(r.0) && Lookup(r.0, Letter(2)) == 0 && r.0.imapBits[6]
  {
    var end := TwoHolesReached(fs);
    LeadsExec(fs, TwoHolesRun(), end);
    hide LegalRun, Exec, TwoHolesRun, Leads;
    LoseLast(end);
  }

  lemma LoseLast(end: Fs)
    requires Holed(end, 4, {0, 1})
    ensures Inv(end) && Shape(end) && Lookup(end, Letter(2)) == 6
    ensures var r := Unlinked(end, Letter(3));
            && r.1 == Done && Shape(r.0) && Lookup(r.0, Letter(2)) == 0 && r.0.imapBits[6]
  {
    HoledFile(end, 4, {0, 1}, 2);
    HoledFile(end, 4, {0, 1}, 3);
    TwoHolesLive(end.dir);
    FileEntry(end, Letter(2), 5);
    RemoveIdle(end, Letter(3), 6);
    assert DirOk(end.dir, 112) && end.imapBits[6];
    hide Inv, Unlinked, Letter, Padded, Search, LiveBelow, SetRange;
    LostName(end.dir, 112, 64, ROOT_INODE, 6, 5, Letter(2));
  }

  // ---------------------------------------------------------------- one hole

  /** A descriptor, an open file and a slot for an inode are free. */
  ghost predicate TablesFree(fs: Fs)
    requires Shape(fs)
  {
    && |fs.filp| > 0 && FreeFd(fs.filp[0], NR_FILES) < NR_FILES && FreeDesc(fs.fdt, NR_FILE_DESC) < NR_FILE_DESC
    && FindFree(fs.table, NR_INODE) >= 0 && fs.table[ROOT_SLOT].cnt > 0 && fs.table[ROOT_SLOT].num == ROOT_INODE
  }

  /** Process 0 has made a file with inode nr and the sectors from bit f on. */
  ghost predicate NewFile(fs: Fs, end: Fs, name: seq<byte>, nr: nat, f: nat)
    requires Shape(fs) && TablesFree(fs) && |name| <= 12 && f + FILE_SECTS <= |fs.smapBits| && nr < |fs.imapBits|
  {
    var p := FindFree(fs.table, NR_INODE);
    && Shape(end) && end.nSmap == fs.nSmap
    && end.dir == AddName(fs.dir, FirstUnused(fs.dir, DirSize(fs.table) / 16), nr, name)
    && DirSize(end.table) == GrownSize(fs.dir, DirSize(fs.table))
    && end.imapBits == fs.imapBits[nr := true] && end.smapBits == SetRange(fs.smapBits, f, FILE_SECTS, true)
    && end.table[ROOT_SLOT].cnt == fs.table[ROOT_SLOT].cnt && end.table[ROOT_SLOT].num == fs.table[ROOT_SLOT].num
    && 0 < p && end.table[p].num == nr && (forall q | 0 < q < NR_INODE && q != p :: end.table[q] == fs.table[q])
    && |end.filp| == |fs.filp|
    && (forall q | 0 <= q < NR_FILES && q != FreeFd(fs.filp[0], NR_FILES) :: end.filp[0][q] == fs.filp[0][q])
    && forall d | 0 <= d < NR_FILE_DESC && d != FreeDesc(fs.fdt, NR_FILE_DESC) :: end.fdt[d] == fs.fdt[d]
  }

  lemma CreatesNewFile(fs: Fs, name: seq<byte>, nr: nat, f: nat)
    requires Shape(fs) && |name| <= 12 && HasRoom(fs) && TablesFree(fs)
    requires FirstFree(fs.imapBits) == nr && FirstFree(fs.smapBits) == f
    requires GrownSize(fs.dir, DirSize(fs.table)) < DIR_SECTS * SECTOR_SIZE
    ensures var r := CreateFile(fs, name);
            r.1.At? && NewFile(fs, r.0, name, nr, f) && r.0.filp == fs.filp && r.0.fdt == fs.fdt
  {
    assert Get(fs.table, fs.inodes, nr).1 == At(FindFree(fs.table, NR_INODE));
    hide FindUsed, FindFree, FirstFree, FreeFd, FreeDesc, AddName, SetRange, FirstUnused, GrownSize;
  }

  lemma NewFileAttached(fs: Fs, end: Fs, name: seq<byte>, nr: nat, f: nat, p: nat)
    requires Shape(fs) && TablesFree(fs) && |name| <= 12 && f + FILE_SECTS <= |fs.smapBits| && nr < |fs.imapBits|
    requires NewFile(fs, end, name, nr, f) && end.filp == fs.filp && end.fdt == fs.fdt
    ensures NewFile(fs, Attach(end, 0, FreeFd(fs.filp[0], NR_FILES), FreeDesc(fs.fdt, NR_FILE_DESC), MAKE, p), name, nr, f)
  {
    hide FindUsed, FindFree, FreeFd, FreeDesc, AddName, SetRange, FirstUnused, GrownSize;
  }

  lemma OpenAttaches(fs: Fs, name: seq<byte>)
    requires Shape(fs) && |fs.filp| > 0 && CreatesNew(fs, name, MAKE) && StripPath(name) == Name(name) && HasRoom(fs)
    requires FreeFd(fs.filp[0], NR_FILES) < NR_FILES && FreeDesc(fs.fdt, NR_FILE_DESC) < NR_FILE_DESC
    requires CreateFile(fs, name).1.At?
    ensures var fd, c := FreeFd(fs.filp[0], NR_FILES), CreateFile(fs, name);
            && |c.0.filp| > 0 && fd < |c.0.filp[0]| && FreeDesc(fs.fdt, NR_FILE_DESC) < |c.0.fdt|
            && OpenFile(fs, 0, name, MAKE) == (Attach(c.0, 0, fd, FreeDesc(fs.fdt, NR_FILE_DESC), MAKE, c.1.p), Fd(fd))
  {
    hide Lookup, FirstFree, FreeFd, FreeDesc, StripPath, HasRoom, Attach, Created;
  }

  /** A file with the name can be made, with inode nr and the sectors from bit f on. */
  ghost predicate RoomFor(fs: Fs, name: seq<byte>, nr: nat, f: nat) {
    && Shape(fs) && GoodName(name) && Lookup(fs, name) == 0 && HasRoom(fs) && TablesFree(fs)
    && FirstFree(fs.imapBits) == nr && FirstFree(fs.smapBits) == f
    && GrownSize(fs.dir, DirSize(fs.table)) < DIR_SECTS * SECTOR_SIZE
    && CreatesNew(fs, name, MAKE)
  }

  ghost predicate OpensAs(fs: Fs, name: seq<byte>, nr: nat, f: nat)
    requires RoomFor(fs, name, nr, f)
  {
    OpenFile(fs, 0, name, MAKE).1.Fd? && NewFile(fs, OpenFile(fs, 0, name, MAKE).0, name, nr, f)
  }

  /** A request by process 0 that makes a file, in any state with room for that. */
  lemma OpensNew(fs: Fs, name: seq<byte>, nr: nat, f: nat)
    requires RoomFor(fs, name, nr, f)
    ensures OpensAs(fs, name, nr, f)
  {
    StripPathOfName(name);
    hide Lookup, FindFree, FirstFree, FreeFd, FreeDesc, StripPath, CreateFile, NewFile, Attach, GrownSize, OpenFile;
    CreatesNewFile(fs, name, nr, f);
    OpenAttaches(fs, name);
    NewFileAttached(fs, CreateFile(fs, name).0, name, nr, f, CreateFile(fs, name).1.p);
  }

  /** Files a, b and c are made, and a is removed. */
  function OneHoleRun(): seq<Request> {
    FillRun(3) + [Unlink(Letter(0))]
  }

  lemma OneHoleReached(fs: Fs) returns (end: Fs)
    requires IsNew(fs) && |fs.filp| > 0 && fs.nSmap >= 3
    ensures Leads(fs, OneHoleRun(), end) && Holed(end, 3, {0}) && end.nSmap == fs.nSmap
  {
    assert |fs.smapBits| == fs.nSmap * MAP_BITS;
    hide Holed, FillRun, Leads, Letter, IsNew, Inv, Idle, RoomLeft;
    var f := FillNew(fs, 3);
    end := RemoveLetter(f, 3, {}, 0);
    assert {} + {0} == {0};
    LeadsOn(fs, FillRun(3), f, [Unlink(Letter(0))], end);
  }

  /** Then c is removed, the last of six entries; b is now in the entry behind the last. */
  ghost predicate Behind(fs: Fs) {
    && Shape(fs) && |fs.filp| > 0 && DirSize(fs.table) == 64 && fs.nSmap >= 3
    && (forall e | 0 <= e < 3 :: fs.dir[e].nr != 0 && forall i | 0 <= i < 4 :: fs.dir[e].name != Padded(Letter(i)))
    && fs.dir[3] == NO_ENTRY && fs.dir[4] == Entry(5, Padded(Letter(1))) && (forall e | 5 <= e < |fs.dir| :: fs.dir[e] == NO_ENTRY)
    && (forall b | 0 <= b < |fs.imapBits| :: fs.imapBits[b] <==> b < 4 || b == 5)
    && fs.smapBits[0] && (forall b | 1 <= b < |fs.smapBits| :: fs.smapBits[b] <==> (b - 1) / FILE_SECTS == 0 || (b - 1) / FILE_SECTS == 2)
    && fs.table[ROOT_SLOT].cnt > 0 && fs.table[ROOT_SLOT].num == ROOT_INODE && (forall p | 0 < p < NR_INODE :: fs.table[p].cnt == 0)
    && (forall d | 0 <= d < NR_FILE_DESC :: fs.fdt[d].slot == None) && (forall fd | 0 <= fd < NR_FILES :: fs.filp[0][fd] == None)
  }

  lemma OneHoleLive(dir: seq<Entry>)
    requires |dir| >= 5 && (forall e | 0 <= e < 3 :: dir[e].nr != 0) && dir[3].nr == 0 && dir[4].nr != 0
    ensures LiveBelow(dir, 5) == 4
  {
    assert LiveBelow(dir, 0) == 0 && LiveBelow(dir, 1) == 1 && LiveBelow(dir, 2) == 2 && LiveBelow(dir, 3) == 3;
    assert LiveBelow(dir, 4) == 3;
  }

  lemma GoneBehind(fs: Fs, end: Fs)
    requires Holed(fs, 3, {0}) && fs.nSmap >= 3 && Gone(fs, end, 5) && LiveBelow(fs.dir, 5) == 4
    ensures Behind(end)
  {
    assert FileAt(fs, 1) && FileAt(fs, 2);
    RemovedBits(fs.smapBits, end.smapBits, 3, {0}, 2);
    hide Inv, Letter, Padded, LiveBelow, SetRange, FileAt;
  }

  lemma LastRemoved(fs: Fs)
    requires Holed(fs, 3, {0}) && fs.nSmap >= 3
    ensures Unlinked(fs, Letter(2)).1 == Done && Behind(Unlinked(fs, Letter(2)).0) && Lookup(fs, Letter(1)) == 5
  {
    HoledFile(fs, 3, {0}, 1);
    HoledFile(fs, 3, {0}, 2);
    FileEntry(fs, Letter(1), 4);
    OneHoleLive(fs.dir);
    hide Inv, Unlinked, Letter, Lookup, LiveBelow, SetRange, IsFile, Gone, Behind;
    RemoveIdle(fs, Letter(2), 5);
    GoneBehind(fs, Unlinked(fs, Letter(2)).0);
  }

  lemma BehindReady(fs: Fs)
    requires Behind(fs)
    ensures HasRoom(fs) && FirstFree(fs.imapBits) == 4 && FirstFree(fs.smapBits) == 1 + FILE_SECTS && TablesFree(fs)
    ensures FirstUnused(fs.dir, 4) == 3
  {
    var nr, f := FirstFree(fs.imapBits), FirstFree(fs.smapBits);
    hide FirstFree, FindUsed, FindFree, FreeFd, FreeDesc, FirstUnused, Letter, Padded;
    assert !fs.imapBits[4] && (nr < |fs.imapBits| ==> !fs.imapBits[nr]);
    assert !fs.smapBits[1 + FILE_SECTS] && (f < |fs.smapBits| ==> !fs.smapBits[f]);
    assert fs.table[1].cnt == 0 && fs.fdt[0].slot == None && fs.filp[0][0] == None;
  }

  /** File d has been made, and went into the hole. */
  ghost predicate HoleFilled(fs: Fs) {
    && Shape(fs) && TablesFree(fs) && DirSize(fs.table) == 64 && fs.nSmap >= 3
    && (forall e | 0 <= e < 3 :: fs.dir[e].nr != 0 && forall i | 0 <= i < 4 :: fs.dir[e].name != Padded(Letter(i)))
    && fs.dir[3] == Entry(4, Padded(Letter(3))) && fs.dir[4] == Entry(5, Padded(Letter(1)))
    && (forall e | 5 <= e < |fs.dir| :: fs.dir[e] == NO_ENTRY)
    && (forall b | 0 <= b < |fs.imapBits| :: fs.imapBits[b] <==> b < 6)
    && (forall b | 0 <= b < |fs.smapBits| :: fs.smapBits[b] <==> b < 1 + 3 * FILE_SECTS)
    && forall p | 0 < p < NR_INODE && fs.table[p].cnt > 0 :: fs.table[p].num == 4
  }

  lemma OtherLetters(dir: seq<Entry>, i: nat, j: nat)
    requires |dir| == DIR_SLOTS && i < 4 && j < 4 && i != j && i != 1
    requires forall e | 0 <= e < 3 :: dir[e].name != Padded(Letter(i))
    requires dir[3] == NO_ENTRY || dir[3].name == Padded(Letter(j))
    requires dir[4].name == Padded(Letter(1)) && forall e | 5 <= e < |dir| :: dir[e] == NO_ENTRY
    ensures Search(dir, 64, ROOT_INODE, Letter(i)) == 0
  {
    LetterNames(i, j);
    LetterNames(i, 1);
    PaddedNotEmpty(Letter(i));
    hide Search, Padded, Letter;
    SearchNothing(dir, 64, ROOT_INODE, Letter(i));
  }

  lemma BehindFound(dir: seq<Entry>, j: nat)
    requires |dir| == DIR_SLOTS && j < 4 && j != 1
    requires forall e | 0 <= e < 3 :: dir[e].name != Padded(Letter(1))
    requires dir[3] == NO_ENTRY || dir[3].name == Padded(Letter(j))
    requires dir[4] == Entry(5, Padded(Letter(1)))
    ensures Search(dir, 64, ROOT_INODE, Letter(1)) == 5
  {
    LetterNames(1, j);
    PaddedNotEmpty(Letter(1));
    hide Search, Padded, Letter;
    BehindLast(dir, 64, ROOT_INODE, Letter(1));
  }

  lemma NewInHole(fs: Fs, end: Fs)
    requires Behind(fs) && TablesFree(fs) && NewFile(fs, end, Letter(3), 4, 1 + FILE_SECTS) && FirstUnused(fs.dir, 4) == 3
    ensures HoleFilled(end)
  {
    SpareSlot(fs, end);
    hide Letter, Padded, FindFree, FreeFd, FreeDesc, FirstUnused, SetRange, TablesFree;
    HoleBits(fs.smapBits, end.smapBits);
    HoleEntries(fs.dir, end.dir);
    hide AddName;
  }

  lemma HoleEntries(dir: seq<Entry>, dir': seq<Entry>)
    requires |dir| == DIR_SLOTS && dir[3] == NO_ENTRY && dir' == AddName(dir, 3, 4, Letter(3))
    ensures dir' == dir[3 := Entry(4, Padded(Letter(3)))]
  {
    RenamedEmpty(4, Letter(3));
  }

  lemma HoleBits(bits: seq<bool>, bits': seq<bool>)
    requires |bits| >= 3 * MAP_BITS && bits[0] && bits' == SetRange(bits, 1 + FILE_SECTS, FILE_SECTS, true)
    requires forall b | 1 <= b < |bits| :: bits[b] <==> (b - 1) / FILE_SECTS == 0 || (b - 1) / FILE_SECTS == 2
    ensures |bits'| == |bits| && forall b | 0 <= b < |bits'| :: bits'[b] <==> b < 1 + 3 * FILE_SECTS
  {}

  /** There still are free entries in the tables. */
  lemma SpareSlot(fs: Fs, end: Fs)
    requires Behind(fs) && TablesFree(fs) && NewFile(fs, end, Letter(3), 4, 1 + FILE_SECTS)
    ensures TablesFree(end)
  {
    hide Letter, FindFree, FreeFd, FreeDesc, SetRange, AddName, GrownSize, FirstUnused;
    assert end.table[1].cnt == 0 || end.table[2].cnt == 0;
    assert end.fdt[0].slot == None || end.fdt[1].slot == None;
    assert end.filp[0][0] == None || end.filp[0][1] == None;
  }

  lemma HoleUsed(fs: Fs)
    requires Behind(fs)
    ensures HasRoom(fs) && CreatesNew(fs, Letter(3), MAKE) && Lookup(fs, Letter(3)) == 0 && Lookup(fs, Letter(1)) == 5
    ensures OpenFile(fs, 0, Letter(3), MAKE).1.Fd? && HoleFilled(OpenFile(fs, 0, Letter(3), MAKE).0)
  {
    OtherLetters(fs.dir, 3, 0);
    BehindFound(fs.dir, 0);
    BehindReady(fs);
    LetterNames(3, 3);
    StripPathOfName(Letter(3));
    hide HasRoom, Letter, Padded, Search, FirstFree, FirstUnused, TablesFree, OpenFile, GoodName, NewFile, StripPath, HoleFilled;
    OpensNew(fs, Letter(3), 4, 1 + FILE_SECTS);
    NewInHole(fs, OpenFile(fs, 0, Letter(3), MAKE).0);
  }

  lemma FilledReady(fs: Fs)
    requires HoleFilled(fs)
    ensures HasRoom(fs) && FirstFree(fs.imapBits) == 6 && FirstFree(fs.smapBits) == 1 + 3 * FILE_SECTS
  {
    FirstFreeOf(fs.imapBits, 6);
    FirstFreeOf(fs.smapBits, 1 + 3 * FILE_SECTS);
    hide Letter, Padded, FirstFree, FindUsed, FindFree, FreeFd, FreeDesc;
    assert FindUsed(fs.table, 6, NR_INODE) < 0;
  }

  lemma OnlyOverwritten(dir: seq<Entry>)
    requires |dir| == DIR_SLOTS && forall e | 0 <= e < 3 :: dir[e].nr != 0 && dir[e].name != Padded(Letter(1))
    requires dir[3] == Entry(4, Padded(Letter(3))) && dir[4] == Entry(5, Padded(Letter(1)))
    requires forall e | 5 <= e < |dir| :: dir[e] == NO_ENTRY
    ensures FirstUnused(dir, 4) == 4
    ensures Search(AddName(dir, 4, 6, Letter(0)), GrownSize(dir, 64), ROOT_INODE, Letter(1)) == 0
  {
    LetterNames(0, 1);
    LetterNames(1, 3);
    PaddedNotEmpty(Letter(1));
    hide Letter, Padded, Search, FirstUnused, AddName, GrownSize;
    OverwrittenName(dir, 64, ROOT_INODE, 6, Letter(0), Letter(1));
  }

  /** File a is made; it is written over b. */
  lemma BehindOverwritten(fs: Fs)
    requires HoleFilled(fs)
    ensures HasRoom(fs) && CreatesNew(fs, Letter(0), MAKE) && Lookup(fs, Letter(0)) == 0 && Lookup(fs, Letter(1)) == 5
    ensures var r := OpenFile(fs, 0, Letter(0), MAKE);
            r.1.Fd? && Shape(r.0) && Lookup(r.0, Letter(1)) == 0 && r.0.imapBits[5]
  {
    OtherLetters(fs.dir, 0, 3);
    BehindFound(fs.dir, 3);
    FilledReady(fs);
    OnlyOverwritten(fs.dir);
    LetterNames(0, 0);
    StripPathOfName(Letter(0));
    assert fs.imapBits[5];
    hide Letter, Padded, Search, FirstFree, FindUsed, FindFree, FreeFd, FreeDesc, OpenFile, FirstUnused, HasRoom, GoodName, StripPath;
    hide AddName, SetRange;
    assert TablesFree(fs);
    hide TablesFree;
    OpensNew(fs, Letter(0), 6, 1 + 3 * FILE_SECTS);
  }

  /** With one hole b survives the removal of c, and a new d as well, which goes into the hole; the
      next new file is written over its entry, and its inode stays in use. */
  lemma OneHoleLosesName(fs: Fs)
    requires IsNew(fs) && |fs.filp| > 0 && fs.nSmap >= 3
    ensures Inv(fs) && Shape(fs) && LegalRun(fs, OneHoleRun())
    ensures var end := Exec(fs, OneHoleRun());
            && Inv(end) && Shape(end) && Lookup(end, Letter(1)) == 5
            && var r := Unlinked(end, Letter(2));
            && r.1 == Done && Shape(r.0) && Lookup(r.0, Letter(1)) == 5 && Lookup(r.0, Letter(3)) == 0 && HasRoom(r.0) && |r.0.filp| > 0
            && var r1 := OpenFile(r.0, 0, Letter(3), MAKE);
            && r1.1.Fd? && Shape(r1.0) && Lookup(r1.0, Letter(1)) == 5 && Lookup(r1.0, Letter(0)) == 0 && HasRoom(r1.0) && |r1.0.filp| > 0
            && var r2 := OpenFile(r1.0, 0, Letter(0), MAKE);
            && r2.1.Fd? && Shape(r2.0) && Lookup(r2.0, Letter(1)) == 0 && r2.0.imapBits[5]
  {
    var end := OneHoleReached(fs);
    LeadsExec(fs, OneHoleRun(), end);
    assert Inv(end) && Shape(end);
    LastRemoved(end);
    var m := Unlinked(end, Letter(2)).0;
    assert Shape(m) && |m.filp| > 0;
    HoleUsed(m);
    hide LegalRun, Exec, OneHoleRun, Leads, Inv, Unlinked, OpenFile, Lookup, HasRoom, Holed, Behind;
    BehindOverwritten(OpenFile(m, 0, Letter(3), MAKE).0);
  }
}
