/** Adding an entry to the directory and removing one. */
module FsEntries {
  import opened FsBits
  import opened FsDevice
  import opened FsMaps
  import opened FsInodes
  import opened FsDirectory

  // ---------------------------------------------------------------- new_dir_entry

  /** First unused entry below n; n when all of them are in use. */
  function FirstUnused(dir: seq<Entry>, n: nat): (e: nat)
    requires n <= |dir|
    ensures e <= n
    ensures e < n ==> dir[e].nr == 0
    ensures forall i | 0 <= i < e :: dir[i].nr != 0
  {
    if n == 0 then 0
    else
      var e := FirstUnused(dir, n - 1);
      if e < n - 1 || dir[e].nr == 0 then e else n
  }

  lemma {:induction false} FirstUnusedBelow(dir: seq<Entry>, e: nat, n: nat)
    requires e <= n <= |dir| && (forall i | 0 <= i < e :: dir[i].nr != 0) && (e < n ==> dir[e].nr == 0)
    ensures FirstUnused(dir, n) == e
  {
    if n > e {
      FirstUnusedBelow(dir, e, n - 1);
    }
  }

  /** The entry with its inode number and name overwritten. The name is stored with one zero
      behind it; what the entry holds after that zero stays. */
  function Renamed(x: Entry, nr: nat, name: seq<byte>): Entry
    requires |name| <= 12
  {
    Entry(nr, if |name| == 12 then name else name + [0] + x.name[|name| + 1..])
  }

  /** The entry with the lowest byte of its inode number zeroed. */
  function LowByteZeroed(x: Entry): Entry {
    Entry(x.nr - x.nr % 256, x.name)
  }

  /** The zero behind a name of twelve characters falls into the next entry, unless the entry
      is the last one of its sector. */
  predicate Spills(e: nat, name: seq<byte>) {
    |name| == 12 && e % 32 != 31
  }

  /** The directory after a new name has been written to entry e. */
  function AddName(dir: seq<Entry>, e: nat, nr: nat, name: seq<byte>): (r: seq<Entry>)
    requires e < |dir| == DIR_SLOTS && |name| <= 12
    ensures |r| == |dir|
  {
    var dir1 := dir[e := Renamed(dir[e], nr, name)];
    if Spills(e, name) then dir1[e + 1 := LowByteZeroed(dir1[e + 1])] else dir1
  }

  /** The name has at most eleven characters, or its entry ends its sector, or the number in the
      next entry has a zero low byte anyway. */
  predicate Fits(dir: seq<Entry>, e: nat, name: seq<byte>) {
    |name| <= 12 && e < |dir| == DIR_SLOTS && (|name| <= 11 || e % 32 == 31 || dir[e + 1].nr % 256 == 0)
  }

  /** A new name leaves every other entry as it is, if and only if it fits. */
  lemma AddNameKeepsOthers(dir: seq<Entry>, e: nat, nr: nat, name: seq<byte>)
    requires e < |dir| == DIR_SLOTS && |name| <= 12
    ensures (forall i | 0 <= i < |dir| && i != e :: AddName(dir, e, nr, name)[i] == dir[i])
            <==> Fits(dir, e, name)
  {
    if Spills(e, name) {
      assert AddName(dir, e, nr, name)[e + 1] == LowByteZeroed(dir[e + 1]);
      assert LowByteZeroed(dir[e + 1]) == dir[e + 1] <==> dir[e + 1].nr % 256 == 0;
    }
  }

  /** The bytes of a sector after a name has been written to entry k of it. */
  predicate NameWritten(sec: seq<byte>, sec': seq<byte>, k: nat, nr: nat, name: seq<byte>)
    requires |sec| == |sec'| == 512 && k < 32 && |name| <= 12
  {
    var o, b := 16 * k, Bytes32(nr) + name + [0];
    forall i | 0 <= i < 512 :: sec'[i] == if o <= i < o + 5 + |name| then b[i - o] else sec[i]
  }

  lemma WrittenEntry(sec: seq<byte>, sec': seq<byte>, k: nat, nr: nat, name: seq<byte>)
    requires |sec| == |sec'| == 512 && k < 32 && |name| <= 12 && nr < LIMIT32
    requires NameWritten(sec, sec', k, nr, name)
    ensures EntryIn(sec', k) == Renamed(EntryIn(sec, k), nr, name)
  {
    hide Get32, Bytes32;
    var o, b := 16 * k, Bytes32(nr) + name + [0];
    assert sec'[o..o + 4] == Bytes32(nr);
    Number32RoundTrip(nr, sec', o);
    var x, y := EntryIn(sec', k).name, Renamed(EntryIn(sec, k), nr, name).name;
    forall i | 0 <= i < 12 ensures x[i] == y[i] {
      assert x[i] == sec'[o + 4 + i];
      assert i < |name| ==> b[4 + i] == name[i];
      assert i == |name| ==> b[4 + i] == 0;
    }
  }

  lemma LowByteZero(s: seq<byte>, s': seq<byte>, o: nat)
    requires o + 4 <= |s| == |s'| && s'[o] == 0 && s[o + 1] == s'[o + 1] && s[o + 2] == s'[o + 2] && s[o + 3] == s'[o + 3]
    ensures Get32(s', o) == Get32(s, o) - Get32(s, o) % 256
  {
    assert Value(0) == 0;
    hide Value;
    var r := Value(s[o + 1]) + 0x100 * Value(s[o + 2]) + 0x1_0000 * Value(s[o + 3]);
    assert Get32(s, o) == Value(s[o]) + 256 * r && Get32(s', o) == 256 * r;
  }

  lemma WrittenOthers(sec: seq<byte>, sec': seq<byte>, k: nat, nr: nat, name: seq<byte>, k': nat)
    requires |sec| == |sec'| == 512 && k < 32 && |name| <= 12 && k' < 32 && k' != k
    requires NameWritten(sec, sec', k, nr, name)
    ensures EntryIn(sec', k') == if k' == k + 1 && |name| == 12 then LowByteZeroed(EntryIn(sec, k')) else EntryIn(sec, k')
  {
    hide Get32, Bytes32;
    var b := Bytes32(nr) + name + [0];
    assert b[4 + |name|] == 0;
    assert sec'[16 * k' + 4..16 * k' + 16] == sec[16 * k' + 4..16 * k' + 16];
    if k' == k + 1 && |name| == 12 {
      LowByteZero(sec, sec', 16 * k');
    } else {
      Get32Elsewhere(sec, sec', 16 * k');
    }
  }

  /** One sector of the directory has been rewritten. */
  lemma SectorReplaced(d: seq<Sector>, d': seq<Sector>, dir0: nat, i: nat, dir': seq<Entry>)
    requires dir0 + DIR_SECTS <= |d| && i < DIR_SECTS && |dir'| == DIR_SLOTS && |d'| == |d|
    requires SameOutside(d, d', dir0 + i, 1) && SectorHolds(d'[dir0 + i], dir', i * 32)
    requires forall e | 0 <= e < DIR_SLOTS && e / 32 != i :: dir'[e] == Dir(d, dir0)[e]
    ensures Dir(d', dir0) == dir'
  {
    hide EntryIn;
    var sec := d'[dir0 + i];
    forall e | 0 <= e < DIR_SLOTS ensures Dir(d', dir0)[e] == dir'[e] {
      if e / 32 == i {
        assert EntryIn(sec, e % 32) == dir'[i * 32 + e % 32];
      }
    }
  }

  /** Writing a name to entry k of sector i of the directory. */
  lemma NameAdded(d: seq<Sector>, d': seq<Sector>, dir0: nat, i: nat, k: nat, nr: nat, name: seq<byte>)
    requires dir0 + DIR_SECTS <= |d| == |d'| && i < DIR_SECTS && k < 32 && |name| <= 12 && nr < LIMIT32
    requires SameOutside(d, d', dir0 + i, 1) && NameWritten(d[dir0 + i], d'[dir0 + i], k, nr, name)
    ensures Dir(d', dir0) == AddName(Dir(d, dir0), i * 32 + k, nr, name)
  {
    hide EntryIn, NameWritten, Renamed, LowByteZeroed, Dir;
    var sec, sec' := d[dir0 + i], d'[dir0 + i];
    var dir, e := Dir(d, dir0), i * 32 + k;
    var dir' := AddName(dir, e, nr, name);
    SectorEntries(d, dir0, i);
    WrittenEntry(sec, sec', k, nr, name);
    forall k' | 0 <= k' < 32 ensures EntryIn(sec', k') == dir'[i * 32 + k'] {
      assert EntryIn(sec, k') == dir[i * 32 + k'];
      if k' != k {
        WrittenOthers(sec, sec', k, nr, name, k');
      }
    }
    SectorReplaced(d, d', dir0, i, dir');
  }

  /** Loads the sector of the entry that a new name goes to and returns where that is: the
      first unused entry, or the one behind the last. */
  method FindPlace(dev: Device, dir0: nat, size: nat) returns (i: nat, j: nat, atEnd: bool)
    requires dev.Valid() && dir0 + DIR_SECTS <= dev.disk.Length && size < DIR_SECTS * SECTOR_SIZE
    modifies dev.fsbuf
    ensures j < 32 && i < DIR_SECTS && dev.fsbuf[..512] == dev.disk[dir0 + i]
    ensures i * 32 + j == FirstUnused(Dir(dev.disk[..], dir0), size / 16)
    ensures atEnd <==> i * 32 + j == size / 16
  {
    hide EntryIn, Dir, FirstUnused;
    ghost var dir := Dir(dev.disk[..], dir0);
    var nrBlks := (size + SECTOR_SIZE) / SECTOR_SIZE;
    var nrEntries := size / DIR_ENTRY_SIZE;
    var m := 0;
    i := 0;
    while i < nrBlks
      invariant 0 <= i <= nrBlks && m == i * 32 <= nrEntries
      invariant forall e | 0 <= e < m :: dir[e].nr != 0
    {
      dev.RdSect(dir0 + i);
      SectorEntries(dev.disk[..], dir0, i);
      assert SectorHolds(dev.fsbuf[..512], dir, i * 32);
      var done: bool;
      j, m, done := FindPlaceInSector(dev, m, nrEntries, dir);
      if done {
        atEnd := m > nrEntries;
        FirstUnusedBelow(dir, i * 32 + j, size / 16);
        return;
      }
      i := i + 1;
    }
    assert false;
  }

  method FindPlaceInSector(dev: Device, m0: nat, nrEntries: nat, ghost dir: seq<Entry>) returns (j: nat, m: nat, done: bool)
    requires dev.Valid() && m0 <= nrEntries && m0 + 32 <= |dir| && SectorHolds(dev.fsbuf[..512], dir, m0)
    requires forall e | 0 <= e < m0 :: dir[e].nr != 0
    ensures forall e | 0 <= e < m0 + j && e < |dir| :: dir[e].nr != 0
    ensures done ==> j < 32 && m == m0 + j + 1 && m <= nrEntries + 1 && (m <= nrEntries ==> dir[m0 + j].nr == 0)
    ensures !done ==> j == 32 && m == m0 + 32 <= nrEntries
  {
    hide EntryIn;
    m, j, done := m0, 0, false;
    while j < 32
      invariant 0 <= j <= 32 && m == m0 + j && m <= nrEntries
      invariant forall e | 0 <= e < m0 + j :: dir[e].nr != 0
    {
      m := m + 1;
      if m > nrEntries {
        done := true;
        return;
      }
      assert EntryIn(dev.fsbuf[..512], j) == dir[m0 + j];
      EntryInBuffer(dev.fsbuf[..], j);
      assert dev.fsbuf[..][..512] == dev.fsbuf[..512];
      if Get32(dev.fsbuf[..], 16 * j) == 0 {
        done := true;
        return;
      }
      j := j + 1;
    }
  }

  /** Copies a string with its closing zero into the buffer. */
  method StrCpy(dev: Device, o: nat, filename: array<byte>, ghost name: seq<byte>)
    requires dev.Valid() && filename != dev.fsbuf && o + |name| < dev.fsbuf.Length
    requires |name| < filename.Length && filename[..|name| + 1] == name + [0] && 0 !in name
    modifies dev.fsbuf
    ensures dev.fsbuf[..] == Splice(old(dev.fsbuf[..]), o, name + [0])
  {
    hide Splice;
    ghost var s, b := dev.fsbuf[..], name + [0];
    forall i | 0 <= i < |name| ensures b[i] != 0 {
      assert name[i] in name;
    }
    var t := 0;
    while filename[t] != 0
      invariant 0 <= t <= |name| && filename[..|name| + 1] == b
      invariant dev.fsbuf[..] == Splice(s, o, b[..t])
      decreases |name| - t
    {
      assert filename[t] == b[t];
      SpliceTwice(s, o, b[..t], [b[t]]);
      assert b[..t] + [b[t]] == b[..t + 1];
      dev.fsbuf[o + t] := filename[t];
      assert dev.fsbuf[..] == Splice(Splice(s, o, b[..t]), o + t, [b[t]]);
      t := t + 1;
    }
    assert filename[t] == b[t];
    SpliceTwice(s, o, b[..t], [b[t]]);
    assert b[..t] + [b[t]] == b;
    dev.fsbuf[o + t] := 0;
    assert dev.fsbuf[..] == Splice(Splice(s, o, b[..t]), o + t, [b[t]]);
  }

  /** Writes a number and a name to entry j of the loaded sector i of the directory. */
  method WriteEntry(dev: Device, dir0: nat, i: nat, j: nat, nr: nat, filename: array<byte>, ghost name: seq<byte>)
    requires dev.Valid() && dev.fsbuf.Length > 512 && filename != dev.fsbuf && filename as object != dev.disk
    requires dir0 + DIR_SECTS <= dev.disk.Length && i < DIR_SECTS && j < 32 && nr < LIMIT32
    requires dev.fsbuf[..512] == dev.disk[dir0 + i]
    requires |name| <= 12 && |name| < filename.Length && filename[..|name| + 1] == name + [0] && 0 !in name
    modifies dev.disk, dev.fsbuf
    ensures SameOutside(old(dev.disk[..]), dev.disk[..], dir0 + i, 1)
    ensures Dir(dev.disk[..], dir0) == AddName(Dir(old(dev.disk[..]), dir0), i * 32 + j, nr, name)
  {
    hide Splice, Dir, Bytes32, AddName;
    ghost var d, s := dev.disk[..], dev.fsbuf[..];
    assert s[..512] == d[dir0 + i];
    ghost var o := 16 * j;
    Put32(dev, 16 * j, nr);
    StrCpy(dev, 16 * j + 4, filename, name);
    ghost var b := Bytes32(nr) + (name + [0]);
    assert b == Bytes32(nr) + name + [0];
    SpliceTwice(s, o, Bytes32(nr), name + [0]);
    dev.WrSect(dir0 + i);
    assert NameWritten(d[dir0 + i], dev.disk[dir0 + i], j, nr, name);
    NameAdded(d, dev.disk[..], dir0, i, j, nr, name);
  }

  /** The inode map, the sector map and everything else outside the two regions is the same. */
  predicate SameBut(d: seq<Sector>, d': seq<Sector>, s0: nat, n0: nat, s1: nat, n1: nat) {
    |d'| == |d| && forall s | 0 <= s < |d| && !(s0 <= s < s0 + n0) && !(s1 <= s < s1 + n1) :: d'[s] == d[s]
  }

  lemma DirFrame(d: seq<Sector>, d': seq<Sector>, dir0: nat)
    requires dir0 + DIR_SECTS <= |d| && |d'| == |d| && forall s | dir0 <= s < dir0 + DIR_SECTS :: d'[s] == d[s]
    ensures Dir(d', dir0) == Dir(d, dir0)
  {
    hide EntryIn;
  }

  lemma InodesFrame(d: seq<Sector>, d': seq<Sector>, ino0: nat)
    requires ino0 + NR_INODE_SECTS <= |d| && |d'| == |d| && forall s | ino0 <= s < ino0 + NR_INODE_SECTS :: d'[s] == d[s]
    ensures Inodes(d', ino0) == Inodes(d, ino0)
  {
    hide InodeIn;
  }

  /** Size of the directory once a name has been added. */
  function GrownSize(dir: seq<Entry>, size: nat): nat
    requires size / 16 <= |dir|
  {
    if FirstUnused(dir, size / 16) == size / 16 then size + 16 else size
  }

  /** Adds an entry to the directory whose inode is in slot p, and writes that inode back. */
  method NewDirEntry(dev: Device, table: array<Slot>, ino0: nat, p: nat, nr: nat, filename: array<byte>, ghost name: seq<byte>)
    requires dev.Valid() && dev.fsbuf.Length > 512 && p < table.Length && 0 < table[p].num <= NR_INODES
    requires table as object != dev.disk && table as object != dev.fsbuf && table as object != filename
    requires filename != dev.fsbuf && filename as object != dev.disk
    requires ino0 + NR_INODE_SECTS <= table[p].ino.start && table[p].ino.start + DIR_SECTS <= dev.disk.Length
    requires table[p].ino.size < DIR_SECTS * SECTOR_SIZE && Storable(table[p].ino) && nr < LIMIT32
    requires |name| <= 12 && |name| < filename.Length && filename[..|name| + 1] == name + [0] && 0 !in name
    modifies dev.disk, dev.fsbuf, table
    ensures var x, dir0 := old(table[p].ino), old(table[p].ino.start);
            var dir := Dir(old(dev.disk[..]), dir0);
            var x' := x.(size := GrownSize(dir, x.size));
            && Dir(dev.disk[..], dir0) == AddName(dir, FirstUnused(dir, x.size / 16), nr, name)
            && table[..] == old(table[..])[p := old(table[p]).(ino := x')]
            && Inodes(dev.disk[..], ino0) == Inodes(old(dev.disk[..]), ino0)[old(table[p]).num - 1 := x']
            && SameBut(old(dev.disk[..]), dev.disk[..], ino0, NR_INODE_SECTS, dir0, DIR_SECTS)
  {
    hide Dir, Inodes, AddName, FirstUnused;
    ghost var d, t := dev.disk[..], table[..];
    var size, dir0 := table[p].ino.size, table[p].ino.start;
    var i, j, atEnd := FindPlace(dev, dir0, size);
    if atEnd {
      table[p] := table[p].(ino := table[p].ino.(size := size + DIR_ENTRY_SIZE));
    }
    WriteEntry(dev, dir0, i, j, nr, filename, name);
    ghost var d1 := dev.disk[..];
    SyncInode(dev, table, ino0, p);
    DirFrame(d1, dev.disk[..], dir0);
    InodesFrame(d, d1, ino0);
    assert table[..] == t[p := table[p]];
  }

  // ---------------------------------------------------------------- do_unlink, the directory entry

  /** How many of the first n entries are in use. */
  function LiveBelow(dir: seq<Entry>, n: nat): (c: nat)
    requires n <= |dir|
    ensures c <= n
  {
    if n == 0 then 0 else LiveBelow(dir, n - 1) + if dir[n - 1].nr != 0 then 1 else 0
  }

  /** First entry below n for the inode nr; n when there is none. */
  function FirstWith(dir: seq<Entry>, nr: nat, n: nat): (e: nat)
    requires n <= |dir|
    ensures e <= n
    ensures e < n ==> dir[e].nr == nr
    ensures forall i | 0 <= i < e :: dir[i].nr != nr
  {
    if n == 0 then 0
    else
      var e := FirstWith(dir, nr, n - 1);
      if e < n - 1 || dir[e].nr == nr then e else n
  }

  lemma {:induction false} FirstWithBelow(dir: seq<Entry>, nr: nat, e: nat, n: nat)
    requires e < n <= |dir| && (forall i | 0 <= i < e :: dir[i].nr != nr) && dir[e].nr == nr
    ensures FirstWith(dir, nr, n) == e
  {
    if n > e + 1 {
      FirstWithBelow(dir, nr, e, n - 1);
    }
  }

  /** Size of the directory once entry e is gone: after the last entry only the used ones
      count. */
  function ShrunkSize(dir: seq<Entry>, size: nat, e: nat): nat
    requires e <= |dir|
  {
    if e + 1 == size / 16 then 16 * LiveBelow(dir, e) else size
  }

  method FindEntryInSector(dev: Device, nr: nat, m0: nat, nrEntries: nat, dirSize0: nat, ghost dir: seq<Entry>)
    returns (j: nat, m: nat, dirSize: nat)
    requires dev.Valid() && m0 <= nrEntries && m0 + 32 <= |dir| && SectorHolds(dev.fsbuf[..512], dir, m0)
    requires dirSize0 == 16 * LiveBelow(dir, m0) && nrEntries <= |dir|
    requires (forall e | 0 <= e < m0 :: dir[e].nr != nr) && FirstWith(dir, nr, nrEntries) < nrEntries
    ensures j <= 32 && m == m0 + Min(j + 1, 32) && m <= nrEntries
    ensures forall e | 0 <= e < m0 + j :: dir[e].nr != nr
    ensures j < 32 ==> dir[m0 + j].nr == nr
    ensures dirSize == 16 * LiveBelow(dir, m0 + j)
  {
    hide EntryIn;
    m, j, dirSize := m0, 0, dirSize0;
    while j < 32
      invariant 0 <= j <= 32 && m == m0 + j <= nrEntries && dirSize == 16 * LiveBelow(dir, m0 + j)
      invariant forall e | 0 <= e < m0 + j :: dir[e].nr != nr
    {
      m := m + 1;
      if m > nrEntries {
        assert false;
        break;
      }
      assert EntryIn(dev.fsbuf[..512], j) == dir[m0 + j];
      EntryInBuffer(dev.fsbuf[..], j);
      assert dev.fsbuf[..][..512] == dev.fsbuf[..512];
      if Get32(dev.fsbuf[..], 16 * j) == nr {
        return;
      }
      if Get32(dev.fsbuf[..], 16 * j) != 0 {
        dirSize := dirSize + DIR_ENTRY_SIZE;
      }
      j := j + 1;
    }
  }

  /** Zeroes the entry of inode nr in the directory whose inode is in slot p, and makes the
      directory smaller when that was its last entry. */
  method RemoveEntry(dev: Device, table: array<Slot>, ino0: nat, p: nat, nr: nat)
    requires dev.Valid() && p < table.Length && 0 < table[p].num <= NR_INODES
    requires table as object != dev.disk && table as object != dev.fsbuf
    requires ino0 + NR_INODE_SECTS <= table[p].ino.start && table[p].ino.start + DIR_SECTS <= dev.disk.Length
    requires table[p].ino.size < DIR_SECTS * SECTOR_SIZE && Storable(table[p].ino)
    requires var dir := Dir(dev.disk[..], table[p].ino.start);
             FirstWith(dir, nr, table[p].ino.size / 16) < table[p].ino.size / 16
    modifies dev.disk, dev.fsbuf, table
    ensures var x, dir0 := old(table[p].ino), old(table[p].ino.start);
            var dir := Dir(old(dev.disk[..]), dir0);
            var e := FirstWith(dir, nr, x.size / 16);
            var x' := x.(size := ShrunkSize(dir, x.size, e));
            var inodes := Inodes(old(dev.disk[..]), ino0);
            && Dir(dev.disk[..], dir0) == dir[e := NO_ENTRY]
            && table[..] == old(table[..])[p := old(table[p]).(ino := x')]
            && Inodes(dev.disk[..], ino0) == (if e + 1 == x.size / 16 then inodes[old(table[p]).num - 1 := x'] else inodes)
            && SameBut(old(dev.disk[..]), dev.disk[..], ino0, NR_INODE_SECTS, dir0, DIR_SECTS)
  {
    hide Dir, Inodes, FirstWith, LiveBelow, EntryIn;
    ghost var d, t := dev.disk[..], table[..];
    var size, dir0 := table[p].ino.size, table[p].ino.start;
    ghost var dir := Dir(d, dir0);
    var nrBlks := (size + SECTOR_SIZE) / SECTOR_SIZE;
    var nrEntries := size / DIR_ENTRY_SIZE;
    var m, dirSize := 0, 0;
    var i := 0;
    while i < nrBlks
      invariant 0 <= i <= nrBlks && m == i * 32 <= nrEntries && dirSize == 16 * LiveBelow(dir, m)
      invariant forall e | 0 <= e < m :: dir[e].nr != nr
      invariant dev.disk[..] == d && table[..] == t
    {
      dev.RdSect(dir0 + i);
      SectorEntries(dev.disk[..], dir0, i);
      assert SectorHolds(dev.fsbuf[..512], dir, i * 32);
      var j: nat;
      j, m, dirSize := FindEntryInSector(dev, nr, m, nrEntries, dirSize, dir);
      if j < 32 {
        ghost var e := i * 32 + j;
        FirstWithBelow(dir, nr, e, nrEntries);
        ZeroEntry(dev, dir0, i, j);
        InodesFrame(d, dev.disk[..], ino0);
        if m == nrEntries {
          ghost var d1 := dev.disk[..];
          table[p] := table[p].(ino := table[p].ino.(size := dirSize));
          SyncInode(dev, table, ino0, p);
          DirFrame(d1, dev.disk[..], dir0);
        }
        assert table[..] == t[p := table[p]];
        return;
      }
      i := i + 1;
    }
    assert false;
  }

  /** Zeroes entry j of the loaded sector i of the directory. */
  method ZeroEntry(dev: Device, dir0: nat, i: nat, j: nat)
    requires dev.Valid() && dir0 + DIR_SECTS <= dev.disk.Length && i < DIR_SECTS && j < 32
    requires dev.fsbuf[..512] == dev.disk[dir0 + i]
    modifies dev.disk, dev.fsbuf
    ensures SameOutside(old(dev.disk[..]), dev.disk[..], dir0 + i, 1)
    ensures Dir(dev.disk[..], dir0) == Dir(old(dev.disk[..]), dir0)[i * 32 + j := NO_ENTRY]
  {
    hide Dir, Bytes32, Splice;
    ghost var d, s := dev.disk[..], dev.fsbuf[..];
    for k := 0 to 16
      invariant dev.fsbuf[..] == Splice(s, 16 * j, seq(k, _ => 0))
      invariant dev.disk[..] == d
    {
      dev.fsbuf[16 * j + k] := 0;
    }
    ZeroBytes();
    assert EntryBytes(NO_ENTRY) == seq(16, _ => 0);
    dev.WrSect(dir0 + i);
    SplicePrefix(s, 16 * j, EntryBytes(NO_ENTRY));
    EntryStored(d, dev.disk[..], dir0, i * 32 + j, NO_ENTRY);
  }

  lemma ZeroBytes()
    ensures Bytes32(0) == [0, 0, 0, 0]
  {
    assert ByteOf(0) == Pack(false, false, false, false, false, false, false, false);
    hide ByteOf;
    assert 0 % 0x100 == 0 && 0 / 0x100 % 0x100 == 0 && 0 / 0x1_0000 % 0x100 == 0 && 0 / 0x100_0000 % 0x100 == 0;
  }
}
