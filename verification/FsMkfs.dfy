/** Making the file system: what is written to the disk at the start, and that the invariant
    holds then. */
module FsMkfs {
  import opened Options
  import opened FsBits
  import opened FsDevice
  import opened FsMaps
  import opened FsInodes
  import opened FsDirectory
  import opened FsEntries
  import opened FsState
  import opened FsSuper
  import opened FsInvariant
  import opened FsViews

  const NR_TTY: nat := 2

  /** MAKE_DEV(DEV_CHAR_TTY, i) */
  function TtyDevice(i: nat): nat { 0x400 + i }

  const DOT: seq<byte> := [46]

  /** "dev_tty0", "dev_tty1" */
  function TtyName(i: nat): seq<byte>
    requires i < NR_TTY
  {
    [100, 101, 118, 95, 116, 116, 121, if i == 0 then 48 else 49]
  }

  function RootInode(nSmap: nat): Inode {
    Inode(I_DIRECTORY, DIR_ENTRY_SIZE * (NR_TTY + 1), FirstSect(nSmap), FILE_SECTS)
  }

  function TtyInode(i: nat): Inode { Inode(I_CHAR_SPECIAL, 0, TtyDevice(i), 0) }

  function TtyEntry(i: nat): Entry
    requires i < NR_TTY
  {
    Entry(i + 2, Padded(TtyName(i)))
  }

  /** A new disk: the directory and the terminals are in use, and the directory's sectors. */
  ghost predicate FreshDisk(nSmap: nat, imapBits: seq<bool>, smapBits: seq<bool>, inodes: seq<Inode>, dir: seq<Entry>) {
    && |imapBits| == MAP_BITS && |smapBits| == nSmap * MAP_BITS && |inodes| == NR_INODES && |dir| == DIR_SLOTS
    && (forall b | 0 <= b < |imapBits| :: imapBits[b] <==> b < NR_TTY + 2)
    && (forall b | 0 <= b < |smapBits| :: smapBits[b] <==> b < FILE_SECTS + 1)
    && inodes[0] == RootInode(nSmap) && (forall i | 0 <= i < NR_TTY :: inodes[i + 1] == TtyInode(i))
    && dir[0] == Entry(ROOT_INODE, Padded(DOT)) && (forall i | 0 <= i < NR_TTY :: dir[i + 1] == TtyEntry(i))
    && forall e | NR_TTY < e < |dir| :: dir[e] == NO_ENTRY
  }

  /** The tables at the start: the root directory is loaded, and nothing is open. */
  ghost predicate FreshTables(fs: Fs) {
    && |fs.table| == NR_INODE && |fs.fdt| == NR_FILE_DESC && |fs.inodes| == NR_INODES
    && fs.table[ROOT_SLOT] == Slot(1, ROOT_INODE, fs.inodes[0])
    && (forall p | 0 < p < NR_INODE :: fs.table[p].cnt == 0)
    && (forall d | 0 <= d < NR_FILE_DESC :: fs.fdt[d].slot == None)
    && (forall q | 0 <= q < |fs.filp| :: |fs.filp[q]| == NR_FILES && forall fd | 0 <= fd < NR_FILES :: fs.filp[q][fd] == None)
  }

  /** As it is after mkfs, with the directory loaded and nothing open. */
  ghost predicate IsNew(fs: Fs) {
    && FreshDisk(fs.nSmap, fs.imapBits, fs.smapBits, fs.inodes, fs.dir) && FreshTables(fs)
    && fs.nSmap > 0 && FirstSect(fs.nSmap) + fs.nSmap * 4096 < LIMIT32
  }

  lemma FreshDir(nSmap: nat, imapBits: seq<bool>, smapBits: seq<bool>, inodes: seq<Inode>, dir: seq<Entry>)
    requires FreshDisk(nSmap, imapBits, smapBits, inodes, dir)
    ensures DirOk(dir, 48) && InodeMapExact(imapBits, dir)
  {
    hide Padded;
    assert dir[1] == TtyEntry(0) && dir[2] == TtyEntry(1);
    FreshNames();
    forall e | 0 <= e < |dir| ensures dir[e].nr == if e < 3 then e + 1 else 0 {}
    forall i | 1 <= i < MAP_BITS ensures imapBits[i] <==> InDir(dir, i) {
      if i < 4 {
        assert dir[i - 1].nr == i;
      }
    }
  }

  lemma FreshNames()
    ensures var a, b, c := Padded(DOT), Padded(TtyName(0)), Padded(TtyName(1));
            a != b && a != c && b != c && a != NO_ENTRY.name && b != NO_ENTRY.name && c != NO_ENTRY.name
  {
    var a, b, c := Padded(DOT), Padded(TtyName(0)), Padded(TtyName(1));
    assert a[0] == 46 && b[0] == 100 && c[0] == 100 && b[7] == 48 && c[7] == 49;
  }

  lemma FreshMaps(nSmap: nat, imapBits: seq<bool>, smapBits: seq<bool>, inodes: seq<Inode>, dir: seq<Entry>, dataSize: nat)
    requires FreshDisk(nSmap, imapBits, smapBits, inodes, dir) && nSmap > 0 && FirstSect(nSmap) + nSmap * 4096 < LIMIT32
    ensures InodesOk(nSmap, imapBits, inodes, dataSize)
    ensures ExtentsDisjoint(nSmap, imapBits, inodes) && SectorMapExact(nSmap, smapBits, imapBits, inodes)
  {
    assert inodes[1] == TtyInode(0) && inodes[2] == TtyInode(1);
    assert forall i | 1 <= i < MAP_BITS && imapBits[i] :: i == 1 || i == 2 || i == 3;
    forall i: nat, s: nat ensures Owns(nSmap, imapBits, inodes, i, s) <==> i == 1 && s == 0 {}
    forall s: nat ensures Taken(nSmap, imapBits, inodes, s) <==> s == 0 {
      assert Owns(nSmap, imapBits, inodes, 1, 0);
    }
    hide Owns, Taken;
    forall b | 1 <= b < |smapBits| ensures smapBits[b] <==> Taken(nSmap, imapBits, inodes, (b - 1) / FILE_SECTS) {
      assert b < FILE_SECTS + 1 <==> (b - 1) / FILE_SECTS == 0;
    }
  }

  lemma {:induction false} NoRefs(fdt: seq<Desc>, p: nat)
    requires forall d | 0 <= d < |fdt| :: fdt[d].slot == None
    ensures Refs(fdt, p) == 0
  {
    if fdt != [] {
      NoRefs(fdt[..|fdt| - 1], p);
    }
  }

  /** The invariant holds at the start. */
  lemma FreshInv(fs: Fs)
    requires IsNew(fs)
    ensures Inv(fs) && Shape(fs)
  {
    FreshDir(fs.nSmap, fs.imapBits, fs.smapBits, fs.inodes, fs.dir);
    FreshMaps(fs.nSmap, fs.imapBits, fs.smapBits, fs.inodes, fs.dir, |fs.data|);
    assert Coherent(fs.table, fs.imapBits, fs.inodes);
    hide Refs, DirOk, InodeMapExact, InodesOk, ExtentsDisjoint, SectorMapExact, Coherent;
    forall p | 0 <= p < NR_INODE ensures References(fs.fdt, p) <= fs.table[p].cnt {
      NoRefs(fs.fdt, p);
    }
    InvShape(fs);
  }

  // ---------------------------------------------------------------- mkfs

  /** memset(fsbuf, 0, SECTOR_SIZE) */
  method ClearBuffer(dev: Device)
    requires dev.Valid()
    modifies dev.fsbuf
    ensures dev.fsbuf[..512] == ZeroSector() && dev.fsbuf[512..] == old(dev.fsbuf[512..])
  {
    for i := 0 to 512
      invariant forall j | 0 <= j < i :: dev.fsbuf[j] == 0
      invariant dev.fsbuf[512..] == old(dev.fsbuf[512..])
    {
      dev.fsbuf[i] := 0;
    }
  }

  function ZeroSector(): (s: Sector)
    ensures forall j | 0 <= j < 512 :: s[j] == 0
  {
    seq(512, _ => 0)
  }

  /** The first byte of the inode map: a bit for number 0, for the directory and for each
      terminal. */
  method WriteInodeMap(dev: Device)
    requires dev.Valid() && IMAP_SECT < dev.disk.Length
    modifies dev.disk, dev.fsbuf
    ensures SameOutside(old(dev.disk[..]), dev.disk[..], IMAP_SECT, 1)
    ensures var bits := Bits(dev.disk[..], IMAP_SECT, 1); forall b | 0 <= b < |bits| :: bits[b] <==> b < NR_TTY + 2
  {
    hide Bits;
    ghost var d := dev.disk[..];
    ClearBuffer(dev);
    assert dev.fsbuf[0] == dev.fsbuf[..512][0];
    ghost var s := dev.fsbuf[..512];
    for i := 0 to NR_TTY + 2
      invariant dev.fsbuf[..512] == s[0 := dev.fsbuf[0]] && dev.disk[..] == d
      invariant forall k | 0 <= k < 8 :: Bit(dev.fsbuf[0], k) <==> k < i
    {
      ghost var o := dev.fsbuf[0];
      dev.fsbuf[0] := dev.fsbuf[0] | One(i);
      forall k | 0 <= k < 8 ensures Bit(dev.fsbuf[0], k) <==> k < i + 1 {
        SetBit(o, i, k);
      }
    }
    dev.WrSect(IMAP_SECT);
    FirstBits(dev.disk[..], IMAP_SECT, 1, NR_TTY + 2);
  }

  /** The map has its first n bits set, and no other. */
  ghost predicate FirstBitsSet(d: seq<Sector>, s0: nat, nSects: nat, n: nat)
    requires s0 + nSects <= |d|
  {
    forall i, j, k | 0 <= i < nSects && 0 <= j < 512 && 0 <= k < 8 :: BitAt(d, s0, i, j, k) <==> Pos(i, j, k) < n
  }

  lemma FirstBits(d: seq<Sector>, s0: nat, nSects: nat, n: nat)
    requires s0 + nSects <= |d| && FirstBitsSet(d, s0, nSects, n)
    ensures var bits := Bits(d, s0, nSects); forall b | 0 <= b < |bits| :: bits[b] <==> b < n
  {
    var bits := Bits(d, s0, nSects);
    hide BitAt;
    forall b | 0 <= b < |bits| ensures bits[b] <==> b < n {
      PosOf(b);
      assert bits[b] == BitAt(d, s0, b / 4096, b % 4096 / 8, b % 8);
    }
  }

  /** Bit 0 of the sector map and a bit for every sector of the directory. */
  method WriteSectorMap(dev: Device, nSmap: nat)
    requires dev.Valid() && nSmap > 0 && SMAP_SECT + nSmap <= dev.disk.Length
    modifies dev.disk, dev.fsbuf
    ensures SameOutside(old(dev.disk[..]), dev.disk[..], SMAP_SECT, nSmap)
    ensures var bits := Bits(dev.disk[..], SMAP_SECT, nSmap); forall b | 0 <= b < |bits| :: bits[b] <==> b < FILE_SECTS + 1
  {
    hide Bits, Bit;
    ghost var d := dev.disk[..];
    ClearBuffer(dev);
    var nrSects := FILE_SECTS + 1;
    var i := 0;
    while i < nrSects / 8
      invariant 0 <= i <= nrSects / 8 && dev.disk[..] == d
      invariant forall j | 0 <= j < i :: dev.fsbuf[j] == 0xFF
      invariant forall j | i <= j < 512 :: dev.fsbuf[j] == 0
    {
      dev.fsbuf[i] := 0xFF;
      i := i + 1;
    }
    dev.fsbuf[i] := dev.fsbuf[i] | One(0);
    assert nrSects % 8 == 1;
    ghost var x := dev.fsbuf[..512];
    dev.WrSect(SMAP_SECT);
    ClearBuffer(dev);
    for s := 1 to nSmap
      invariant SameOutside(d, dev.disk[..], SMAP_SECT, nSmap)
      invariant dev.disk[SMAP_SECT] == x && dev.fsbuf[..512] == ZeroSector()
      invariant forall r | SMAP_SECT < r < SMAP_SECT + s :: dev.disk[r] == ZeroSector()
    {
      dev.WrSect(SMAP_SECT + s);
    }
    MapBytes(dev.disk[..], nSmap);
    FirstBits(dev.disk[..], SMAP_SECT, nSmap, FILE_SECTS + 1);
  }

  lemma MapBytes(d: seq<Sector>, nSmap: nat)
    requires nSmap > 0 && SMAP_SECT + nSmap <= |d|
    requires forall j | 0 <= j < 512 :: d[SMAP_SECT][j] == if j < 256 then 0xFF else if j == 256 then 1 else 0
    requires forall r | SMAP_SECT < r < SMAP_SECT + nSmap :: d[r] == ZeroSector()
    ensures FirstBitsSet(d, SMAP_SECT, nSmap, FILE_SECTS + 1)
  {
    forall i, j, k | 0 <= i < nSmap && 0 <= j < 512 && 0 <= k < 8 ensures BitAt(d, SMAP_SECT, i, j, k) <==> Pos(i, j, k) < FILE_SECTS + 1 {
      FullByte(0xFF);
      LowBits(k);
      assert i > 0 ==> d[SMAP_SECT + i] == ZeroSector();
    }
  }

  lemma LowBits(k: nat)
    requires k < 8
    ensures !Bit(0, k) && (Bit(1, k) <==> k == 0) && Bit(0xFF, k)
  {}

  /** The first sector of inodes: the directory and the terminals. */
  method WriteInodes(dev: Device, nSmap: nat)
    requires dev.Valid() && FirstSect(nSmap) <= dev.disk.Length && FirstSect(nSmap) < LIMIT32
    modifies dev.disk, dev.fsbuf
    ensures SameOutside(old(dev.disk[..]), dev.disk[..], InodeSect(nSmap), 1)
    ensures var inodes := Inodes(dev.disk[..], InodeSect(nSmap));
            inodes[0] == RootInode(nSmap) && forall i | 0 <= i < NR_TTY :: inodes[i + 1] == TtyInode(i)
  {
    hide InodeIn, Splice, InodeBytes;
    ghost var d := dev.disk[..];
    ClearBuffer(dev);
    InodeRoundTrip(dev.fsbuf[..512], 0, RootInode(nSmap));
    PutInodeBytes(dev, 0, RootInode(nSmap));
    for i := 0 to NR_TTY
      invariant dev.disk[..] == d && InodeIn(dev.fsbuf[..512], 0) == RootInode(nSmap)
      invariant forall j | 0 <= j < i :: InodeIn(dev.fsbuf[..512], j + 1) == TtyInode(j)
    {
      InodeRoundTrip(dev.fsbuf[..512], i + 1, TtyInode(i));
      PutInodeBytes(dev, i + 1, TtyInode(i));
    }
    dev.WrSect(InodeSect(nSmap));
  }

  /** Stores a number and a name in entry k of the buffered sector. */
  method PutEntry(dev: Device, k: nat, nr: nat, name: seq<byte>)
    requires dev.Valid() && k < 32 && nr < LIMIT32 && |name| <= 11
    modifies dev.fsbuf
    ensures EntryIn(dev.fsbuf[..512], k) == Renamed(EntryIn(old(dev.fsbuf[..512]), k), nr, name)
    ensures forall k' | 0 <= k' < 32 && k' != k :: EntryIn(dev.fsbuf[..512], k') == EntryIn(old(dev.fsbuf[..512]), k')
  {
    hide Splice, EntryIn, Bytes32;
    ghost var s, b := dev.fsbuf[..], name + [0];
    Put32(dev, 16 * k, nr);
    for t := 0 to |name|
      invariant dev.fsbuf[..] == Splice(Splice(s, 16 * k, Bytes32(nr)), 16 * k + 4, b[..t])
    {
      dev.fsbuf[16 * k + 4 + t] := name[t];
    }
    dev.fsbuf[16 * k + 4 + |name|] := 0;
    assert dev.fsbuf[..] == Splice(Splice(s, 16 * k, Bytes32(nr)), 16 * k + 4, b);
    assert NameWritten(s[..512], dev.fsbuf[..512], k, nr, name);
    assert s[..512] == old(dev.fsbuf[..512]);
    WrittenEntry(s[..512], dev.fsbuf[..512], k, nr, name);
    forall k' | 0 <= k' < 32 && k' != k ensures EntryIn(dev.fsbuf[..512], k') == EntryIn(s[..512], k') {
      WrittenOthers(s[..512], dev.fsbuf[..512], k, nr, name, k');
    }
  }

  lemma ZeroEntries(sec: seq<byte>, k: nat)
    requires |sec| == 512 && (forall j | 0 <= j < 512 :: sec[j] == 0) && k < 32
    ensures EntryIn(sec, k) == NO_ENTRY
  {
    assert Value(0) == 0;
    hide Value;
    assert sec[16 * k + 4..16 * k + 16] == NO_ENTRY.name;
  }

  lemma RenamedEmpty(nr: nat, name: seq<byte>)
    requires |name| <= 11
    ensures Renamed(NO_ENTRY, nr, name) == Entry(nr, Padded(name))
  {
    assert name + [0] + NO_ENTRY.name[|name| + 1..] == Padded(name);
  }

  /** The first sector of the directory: itself and the terminals. */
  method WriteDirectory(dev: Device, dir0: nat)
    requires dev.Valid() && dir0 + DIR_SECTS <= dev.disk.Length
    requires forall s | dir0 < s < dir0 + DIR_SECTS :: dev.disk[s] == ZeroSector()
    modifies dev.disk, dev.fsbuf
    ensures SameOutside(old(dev.disk[..]), dev.disk[..], dir0, 1)
    ensures var dir := Dir(dev.disk[..], dir0);
            && dir[0] == Entry(ROOT_INODE, Padded(DOT)) && (forall i | 0 <= i < NR_TTY :: dir[i + 1] == TtyEntry(i))
            && forall e | NR_TTY < e < |dir| :: dir[e] == NO_ENTRY
  {
    hide EntryIn, Padded, Renamed;
    ghost var d := dev.disk[..];
    ClearBuffer(dev);
    forall k | 0 <= k < 32 ensures EntryIn(dev.fsbuf[..512], k) == NO_ENTRY {
      ZeroEntries(dev.fsbuf[..512], k);
    }
    RenamedEmpty(ROOT_INODE, DOT);
    PutEntry(dev, 0, ROOT_INODE, DOT);
    for i := 0 to NR_TTY
      invariant dev.disk[..] == d && EntryIn(dev.fsbuf[..512], 0) == Entry(ROOT_INODE, Padded(DOT))
      invariant forall j | 0 <= j < i :: EntryIn(dev.fsbuf[..512], j + 1) == TtyEntry(j)
      invariant forall k | i < k < 32 :: EntryIn(dev.fsbuf[..512], k) == NO_ENTRY
    {
      RenamedEmpty(i + 2, TtyName(i));
      PutEntry(dev, i + 1, i + 2, TtyName(i));
    }
    dev.WrSect(dir0);
    SectorEntries(dev.disk[..], dir0, 0);
    ghost var dir := Dir(dev.disk[..], dir0);
    ghost var sec := dev.disk[dir0];
    assert forall k | 0 <= k < 32 :: EntryIn(sec, k) == dir[0 + k];
    forall e | NR_TTY < e < |dir| ensures dir[e] == NO_ENTRY {
      if e < 32 {
        assert EntryIn(sec, e) == dir[0 + e];
      } else {
        ZeroEntries(dev.disk[dir0 + e / 32], e % 32);
      }
    }
    forall i | 0 <= i < NR_TTY ensures dir[i + 1] == TtyEntry(i) {
      assert EntryIn(sec, i + 1) == dir[0 + (i + 1)];
    }
  }

  /** The sectors of the directory, apart from the first, are zero. */
  ghost predicate RestZero(d: seq<Sector>, nSmap: nat)
    requires DataSect(nSmap) <= |d|
  {
    forall s | FirstSect(nSmap) < s < DataSect(nSmap) :: d[s] == ZeroSector()
  }

  /** Makes the file system on a device of `size` sectors, whose directory sectors, apart from the
      first, are zero. */
  method MkFs(dev: Device, size: nat)
    requires dev.Valid() && DataSect(MapSects(size)) <= dev.disk.Length && FirstSect(MapSects(size)) < LIMIT32 && size < LIMIT32
    requires RestZero(dev.disk[..], MapSects(size))
    modifies dev.disk, dev.fsbuf
    ensures var d, nSmap := dev.disk[..], MapSects(size);
            && HasSuper(d, size)
            && FreshDisk(nSmap, Bits(d, IMAP_SECT, 1), Bits(d, SMAP_SECT, nSmap), Inodes(d, InodeSect(nSmap)), Dir(d, FirstSect(nSmap)))
    ensures forall s | s == 0 || DataSect(MapSects(size)) <= s < dev.disk.Length :: dev.disk[s] == old(dev.disk[s])
  {
    hide Bits, Inodes, Dir, Padded, SuperIn, NewSuper;
    var nSmap := MapSects(size);
    WriteSuper(dev, size);
    WriteInodeMap(dev);
    ghost var d1 := dev.disk[..];
    WriteSectorMap(dev, nSmap);
    ghost var d2 := dev.disk[..];
    MapFrame(d1, d2, IMAP_SECT, 1);
    WriteInodes(dev, nSmap);
    ghost var d3 := dev.disk[..];
    MapFrame(d2, d3, IMAP_SECT, 1);
    MapFrame(d2, d3, SMAP_SECT, nSmap);
    WriteDirectory(dev, FirstSect(nSmap));
    ghost var d4 := dev.disk[..];
    MapFrame(d3, d4, IMAP_SECT, 1);
    MapFrame(d3, d4, SMAP_SECT, nSmap);
    InodesFrame(d3, d4, InodeSect(nSmap));
  }
}
