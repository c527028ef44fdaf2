/** What the file system keeps on disk and in memory, and the requests it serves, each as one
    function of that state. */
module FsState {
  import opened Options
  import opened FsBits
  import opened FsDevice
  import opened FsMaps
  import opened FsInodes
  import opened FsDirectory
  import opened FsEntries
  import opened FsTransfer

  const NR_FILES: nat := 64
  const NR_FILE_DESC: nat := 64
  const NR_INODE: nat := 64

  /** NR_DEFAULT_FILE_SECTS, and the bytes in them */
  const FILE_SECTS: nat := 2048
  const FILE_BYTES: nat := 0x10_0000

  /** Sectors that the buffer holds: FSBUF_SIZE >> SECTOR_SIZE_SHIFT */
  const BUF_SECTS: nat := 2048

  const IMAP_SECT: nat := 2
  const SMAP_SECT: nat := 3

  /** First sector of the inodes. */
  function InodeSect(nSmap: nat): nat { SMAP_SECT + nSmap }

  /** First sector of the data, which is where the directory begins. */
  function FirstSect(nSmap: nat): nat { InodeSect(nSmap) + NR_INODE_SECTS }

  /** A file descriptor; it is free when it has no inode slot. */
  datatype Desc = Desc(mode: nat, pos: nat, slot: Option<nat>)

  /** The two maps, the inodes and the directory as they are on disk, the bytes of the disk
      behind the directory, the table of inodes, the table of descriptors, and the
      descriptors of every process. */
  datatype Fs = Fs(nSmap: nat, imapBits: seq<bool>, smapBits: seq<bool>, inodes: seq<Inode>, dir: seq<Entry>,
                   data: seq<byte>, table: seq<Slot>, fdt: seq<Desc>, filp: seq<seq<Option<nat>>>)

  /** root_inode is the first slot of the table. */
  const ROOT_SLOT: nat := 0

  predicate Shape(fs: Fs) {
    && fs.nSmap > 0 && FirstSect(fs.nSmap) + fs.nSmap * 4096 < LIMIT32
    && |fs.imapBits| == MAP_BITS && |fs.smapBits| == fs.nSmap * MAP_BITS
    && |fs.inodes| == NR_INODES && |fs.dir| == DIR_SLOTS
    && |fs.table| == NR_INODE && |fs.fdt| == NR_FILE_DESC
    && (forall q | 0 <= q < |fs.filp| :: |fs.filp[q]| == NR_FILES)
    && DirSize(fs.table) < DIR_SECTS * SECTOR_SIZE
    && 0 < fs.table[ROOT_SLOT].num <= NR_INODES
  }

  function DirSize(table: seq<Slot>): nat
    requires |table| > 0
  {
    table[ROOT_SLOT].ino.size
  }

  /** A new name can be put into the directory without touching any other entry. */
  predicate NameFits(fs: Fs, name: seq<byte>)
    requires Shape(fs)
  {
    Fits(fs.dir, FirstUnused(fs.dir, DirSize(fs.table) / 16), name)
  }

  /** Where the extent of an inode begins in the data. */
  function Base(nSmap: nat, x: Inode): int {
    512 * (x.start - FirstSect(nSmap) - FILE_SECTS)
  }

  /** First clear bit; the length when there is none. */
  function FirstFree(bits: seq<bool>): (f: nat)
    ensures f <= |bits|
    ensures f < |bits| ==> IsFirstFree(bits, f)
    ensures f == |bits| ==> Uniform(bits, 0, |bits|, true)
  {
    if bits == [] then 0
    else
      var f := FirstFree(bits[..|bits| - 1]);
      if f < |bits| - 1 || !bits[|bits| - 1] then f else |bits|
  }

  // ---------------------------------------------------------------- requests

  datatype Reply = Fd(fd: nat) | Done | Bytes(bytes: seq<byte>) | Written(n: nat) | Failed | Panic

  datatype Request =
    | Open(caller: nat, path: seq<byte>, flags: nat)
    | Close(caller: nat, fd: nat)
    | Read(caller: nat, fd: nat, len: nat)
    | Write(caller: nat, fd: nat, bytes: seq<byte>)
    | Unlink(path: seq<byte>)

  /** flags & O_CREAT */
  predicate Creates(flags: nat) { flags % 2 == 1 }

  /** flags & O_RDWR */
  predicate ReadsAndWrites(flags: nat) { flags / 2 % 2 == 1 }

  function Lookup(fs: Fs, path: seq<byte>): nat
    requires Shape(fs)
  {
    Search(fs.dir, DirSize(fs.table), fs.table[ROOT_SLOT].num, path)
  }

  /** First free descriptor below n; n when there is none. */
  function FreeDesc(fdt: seq<Desc>, n: nat): (d: nat)
    requires n <= |fdt|
    ensures d <= n
    ensures d < n ==> fdt[d].slot.None?
    ensures forall i | 0 <= i < d :: fdt[i].slot.Some?
  {
    if n == 0 then 0
    else
      var d := FreeDesc(fdt, n - 1);
      if d < n - 1 || fdt[d].slot.None? then d else n
  }

  /** First free entry of a process's files below n; n when there is none. */
  function FreeFd(files: seq<Option<nat>>, n: nat): (fd: nat)
    requires n <= |files|
    ensures fd <= n
    ensures fd < n ==> files[fd].None?
    ensures forall i | 0 <= i < fd :: files[i].Some?
  {
    if n == 0 then 0
    else
      var fd := FreeFd(files, n - 1);
      if fd < n - 1 || files[fd].None? then fd else n
  }

  /** The table with the directory's size changed. */
  function Resized(table: seq<Slot>, size: nat): (r: seq<Slot>)
    requires |table| > 0
    ensures |r| == |table|
  {
    table[ROOT_SLOT := table[ROOT_SLOT].(ino := table[ROOT_SLOT].ino.(size := size))]
  }

  /** The inode of a new file whose first sector has bit f in the map. */
  function NewInode(nSmap: nat, f: nat): Inode {
    Inode(I_REGULAR, 0, FirstSect(nSmap) + f - 1, FILE_SECTS)
  }

  /** There is room for a new file: a number for its inode, and its sectors. What is free in
      the maps is really free: bit 0 of both is taken, and the inode is not in the table. */
  predicate HasRoom(fs: Fs)
    requires Shape(fs)
  {
    var nr, f := FirstFree(fs.imapBits), FirstFree(fs.smapBits);
    && 0 < nr < MAP_BITS && 0 < f && Uniform(fs.smapBits, f, FILE_SECTS, false)
    && fs.table[ROOT_SLOT].cnt > 0 && FindUsed(fs.table, nr, NR_INODE) < 0
  }

  /** The state once a new, empty file has inode number nr, the sectors from bit f on, and its
      inode in slot p of the table t. */
  function Created(fs: Fs, t: seq<Slot>, name: seq<byte>, nr: nat, f: nat, p: nat): (r: Fs)
    requires Shape(fs) && |t| == |fs.table| && |name| <= 12 && 0 < nr < |fs.imapBits| && f > 0 && p < |t|
    requires f + FILE_SECTS <= |fs.smapBits|
    requires 0 < t[ROOT_SLOT].num <= NR_INODES && p != ROOT_SLOT
    ensures r.fdt == fs.fdt && r.filp == fs.filp && r.data == fs.data && |r.table| == |fs.table|
  {
    var x := NewInode(fs.nSmap, f);
    var t' := Resized(t[p := Slot(1, nr, x)], GrownSize(fs.dir, DirSize(fs.table)));
    fs.(imapBits := fs.imapBits[nr := true],
        smapBits := SetRange(fs.smapBits, f, FILE_SECTS, true),
        inodes := fs.inodes[nr - 1 := x][t'[ROOT_SLOT].num - 1 := t'[ROOT_SLOT].ino],
        dir := AddName(fs.dir, FirstUnused(fs.dir, DirSize(fs.table) / 16), nr, name),
        table := t')
  }

  /** A new, empty file, and the slot of its inode. */
  function CreateFile(fs: Fs, name: seq<byte>): (Fs, Found)
    requires Shape(fs) && |name| <= 12 && HasRoom(fs)
  {
    var nr, f := FirstFree(fs.imapBits), FirstFree(fs.smapBits);
    var g := Get(fs.table, fs.inodes, nr);
    if g.1.At? then (Created(fs, g.0, name, nr, f, g.1.p), g.1) else (fs, g.1)
  }

  /** The inode slot for a request to open a file. */
  function OpenInode(fs: Fs, path: seq<byte>, flags: nat): (Fs, Found)
    requires Shape(fs) && Lookup(fs, path) <= NR_INODES
    requires CreatesNew(fs, path, flags) ==> HasRoom(fs)
  {
    if CreatesNew(fs, path, flags) then CreateFile(fs, StripPath(path).name)
    else if Creates(flags) || StripPath(path).BadPath? then (fs, NoInode)
    else
      var g := Get(fs.table, fs.inodes, Lookup(fs, path));
      (fs.(table := g.0), g.1)
  }

  /** The request makes a new file. */
  predicate CreatesNew(fs: Fs, path: seq<byte>, flags: nat)
    requires Shape(fs)
  {
    Creates(flags) && Lookup(fs, path) == 0 && StripPath(path).Name?
  }

  function OpenFile(fs: Fs, caller: nat, path: seq<byte>, flags: nat): (Fs, Reply)
    requires Shape(fs) && caller < |fs.filp| && Lookup(fs, path) <= NR_INODES
    requires CreatesNew(fs, path, flags) ==> HasRoom(fs)
  {
    var fd, d := FreeFd(fs.filp[caller], NR_FILES), FreeDesc(fs.fdt, NR_FILE_DESC);
    if fd == NR_FILES || d == NR_FILE_DESC then (fs, Panic)
    else
      var r := OpenInode(fs, path, flags);
      match r.1
      case NoInode => (r.0, Failed)
      case TableFull => (r.0, Panic)
      case At(p) => (Attach(r.0, caller, fd, d, flags, p), Fd(fd))
  }

  /** Connects a process's file fd with descriptor d, and that with an inode slot. */
  function Attach(fs: Fs, caller: nat, fd: nat, d: nat, flags: nat, p: nat): Fs
    requires caller < |fs.filp| && fd < |fs.filp[caller]| && d < |fs.fdt|
  {
    fs.(filp := fs.filp[caller := fs.filp[caller][fd := Some(d)]], fdt := fs.fdt[d := Desc(flags, 0, Some(p))])
  }

  /** The file is one of the process's open files. */
  predicate IsOpen(fs: Fs, caller: nat, fd: nat) {
    && caller < |fs.filp| && fd < |fs.filp[caller]| && fs.filp[caller][fd].Some?
    && var d := fs.filp[caller][fd].value;
    && d < |fs.fdt| && fs.fdt[d].slot.Some? && fs.fdt[d].slot.value < |fs.table|
    && fs.table[fs.fdt[d].slot.value].cnt > 0
  }

  function CloseFile(fs: Fs, caller: nat, fd: nat): Fs
    requires IsOpen(fs, caller, fd)
  {
    var d := fs.filp[caller][fd].value;
    var p := fs.fdt[d].slot.value;
    fs.(table := fs.table[p := fs.table[p].(cnt := fs.table[p].cnt - 1)],
        fdt := fs.fdt[d := fs.fdt[d].(slot := None)],
        filp := fs.filp[caller := fs.filp[caller][fd := None]])
  }

  // ---------------------------------------------------------------- do_rdwt

  function DescOf(fs: Fs, caller: nat, fd: nat): Desc
    requires IsOpen(fs, caller, fd)
  {
    fs.fdt[fs.filp[caller][fd].value]
  }

  function SlotOf(fs: Fs, caller: nat, fd: nat): Slot
    requires IsOpen(fs, caller, fd)
  {
    fs.table[DescOf(fs, caller, fd).slot.value]
  }

  /** The n bytes from the file's position on lie inside its extent, and inside the data of the
      disk. */
  predicate InExtent(fs: Fs, caller: nat, fd: nat, n: nat)
    requires IsOpen(fs, caller, fd)
  {
    var x, pos := SlotOf(fs, caller, fd).ino, DescOf(fs, caller, fd).pos;
    x.mode == I_REGULAR && 0 <= Base(fs.nSmap, x) && pos + n <= FILE_BYTES
    && (n > 0 ==> Base(fs.nSmap, x) + pos + n <= |fs.data|)
  }

  /** How many bytes a request to read len bytes gets: all of them within the file, and past
      its end as many as are in the sectors that are read. */
  function ReadCount(fs: Fs, caller: nat, fd: nat, len: nat): (n: nat)
    requires IsOpen(fs, caller, fd)
    ensures n <= len
  {
    Transferred(DescOf(fs, caller, fd).pos, len, SlotOf(fs, caller, fd).ino.size, BUF_SECTS)
  }

  /** The position moves on, and the file grows when it has moved past its end. */
  function Advance(fs: Fs, caller: nat, fd: nat, n: nat): Fs
    requires Shape(fs) && IsOpen(fs, caller, fd) && 0 < SlotOf(fs, caller, fd).num <= NR_INODES
  {
    var d := fs.filp[caller][fd].value;
    var p := fs.fdt[d].slot.value;
    var pos := fs.fdt[d].pos + n;
    var fs1 := fs.(fdt := fs.fdt[d := fs.fdt[d].(pos := pos)]);
    if pos > fs.table[p].ino.size then
      var x := fs.table[p].ino.(size := pos);
      fs1.(table := fs.table[p := fs.table[p].(ino := x)], inodes := fs.inodes[fs.table[p].num - 1 := x])
    else fs1
  }

  function ReadFile(fs: Fs, caller: nat, fd: nat, len: nat): (Fs, Reply)
    requires Shape(fs) && IsOpen(fs, caller, fd) && 0 < SlotOf(fs, caller, fd).num <= NR_INODES
    requires ReadsAndWrites(DescOf(fs, caller, fd).mode) ==> InExtent(fs, caller, fd, ReadCount(fs, caller, fd, len))
  {
    if !ReadsAndWrites(DescOf(fs, caller, fd).mode) then (fs, Failed)
    else
      var a, n := Base(fs.nSmap, SlotOf(fs, caller, fd).ino) + DescOf(fs, caller, fd).pos, ReadCount(fs, caller, fd, len);
      (Advance(fs, caller, fd, n), Bytes(Cut(fs.data, a, n)))
  }

  function WriteFile(fs: Fs, caller: nat, fd: nat, bytes: seq<byte>): (Fs, Reply)
    requires Shape(fs) && IsOpen(fs, caller, fd) && 0 < SlotOf(fs, caller, fd).num <= NR_INODES
    requires ReadsAndWrites(DescOf(fs, caller, fd).mode) ==> InExtent(fs, caller, fd, |bytes|)
  {
    if !ReadsAndWrites(DescOf(fs, caller, fd).mode) then (fs, Failed)
    else
      var a := Base(fs.nSmap, SlotOf(fs, caller, fd).ino) + DescOf(fs, caller, fd).pos;
      (Advance(fs.(data := Put(fs.data, a, bytes)), caller, fd, |bytes|), Written(|bytes|))
  }

  // ---------------------------------------------------------------- do_unlink

  const NO_FILE: Inode := Inode(0, 0, 0, 0)

  /** The bit that stands for the first sector of an inode's extent. */
  function ExtentBit(nSmap: nat, x: Inode): int { x.start - FirstSect(nSmap) + 1 }

  /** The file in slot p may be removed. */
  predicate Removable(t: seq<Slot>, p: nat)
    requires p < |t|
  {
    t[p].ino.mode == I_REGULAR && t[p].cnt <= 1
  }

  /** The sectors of the file in slot p are in the map, and it is not the directory. */
  predicate Mapped(fs: Fs, t: seq<Slot>, p: nat)
    requires Shape(fs) && |t| == |fs.table| && p < |t|
  {
    && p != ROOT_SLOT && t[ROOT_SLOT] == fs.table[ROOT_SLOT]
    && ExtentBit(fs.nSmap, t[p].ino) >= 0
    && ExtentBit(fs.nSmap, t[p].ino) + t[p].ino.nr <= |fs.smapBits|
  }

  /** The state once the file with inode nr in slot p of table t is gone, apart from its name. */
  function Released(fs: Fs, t: seq<Slot>, nr: nat, p: nat): Fs
    requires Shape(fs) && |t| == |fs.table| && p < |t| && 0 < nr < MAP_BITS && Mapped(fs, t, p)
  {
    fs.(imapBits := fs.imapBits[nr := false],
        smapBits := SetRange(fs.smapBits, ExtentBit(fs.nSmap, t[p].ino), t[p].ino.nr, false),
        inodes := fs.inodes[nr - 1 := NO_FILE],
        table := t[p := Slot(0, nr, NO_FILE)])
  }

  /** The state once entry e of the directory is gone. */
  function Unnamed(fs: Fs, e: nat): Fs
    requires Shape(fs) && e < DirSize(fs.table) / 16
  {
    var t := Resized(fs.table, ShrunkSize(fs.dir, DirSize(fs.table), e));
    fs.(dir := fs.dir[e := NO_ENTRY], table := t,
        inodes := if e + 1 == DirSize(fs.table) / 16 then fs.inodes[t[ROOT_SLOT].num - 1 := t[ROOT_SLOT].ino] else fs.inodes)
  }

  /** Position of the entry of inode nr. */
  function EntryOf(fs: Fs, nr: nat): (e: nat)
    requires Shape(fs)
  {
    FirstWith(fs.dir, nr, DirSize(fs.table) / 16)
  }

  /** What an unlink request relies on: a file that can be removed has its bits in the map and
      an entry in the directory. */
  predicate Consistent(fs: Fs, path: seq<byte>)
    requires Shape(fs)
  {
    var nr := Lookup(fs, path);
    nr < MAP_BITS &&
    (nr != 0 ==>
      var g := Get(fs.table, fs.inodes, nr);
      g.1.At? && Removable(g.0, g.1.p) ==> Mapped(fs, g.0, g.1.p) && EntryOf(fs, nr) < DirSize(fs.table) / 16)
  }

  function UnlinkFile(fs: Fs, path: seq<byte>): (Fs, Reply)
    requires Shape(fs) && Consistent(fs, path)
  {
    var nr := Lookup(fs, path);
    if path == [SLASH] || nr == 0 || StripPath(path).BadPath? then (fs, Failed)
    else
      var g := Get(fs.table, fs.inodes, nr);
      match g.1
      case NoInode => (fs, Failed)
      case TableFull => (fs, Panic)
      case At(p) =>
        if Removable(g.0, p) then (Unnamed(Released(fs, g.0, nr, p), EntryOf(fs, nr)), Done)
        else (fs.(table := g.0), Failed)
  }
}
