/** Inodes on disk and the reference-counted table of inodes in memory. */
module FsInodes {
  import opened FsBits
  import opened FsDevice
  import opened FsMaps

  const INODE_SIZE: nat := 32
  const NR_INODES: nat := 4096
  const NR_INODE_SECTS: nat := 256
  const ROOT_INODE: nat := 1

  const I_REGULAR: nat := 0x8000
  const I_DIRECTORY: nat := 0x4000
  const I_CHAR_SPECIAL: nat := 0x2000

  /** The part of an inode that is stored on disk. */
  datatype Inode = Inode(mode: nat, size: nat, start: nat, nr: nat)

  /** A slot of the inode table; it is free when its count is 0. */
  datatype Slot = Slot(cnt: nat, num: nat, ino: Inode)

  predicate Storable(x: Inode) {
    x.mode < LIMIT32 && x.size < LIMIT32 && x.start < LIMIT32 && x.nr < LIMIT32
  }

  /** Inode number k of a sector. */
  function InodeIn(sec: seq<byte>, k: nat): (x: Inode)
    requires |sec| == 512 && k < 16
    ensures Storable(x)
  {
    Inode(Get32(sec, 32 * k), Get32(sec, 32 * k + 4), Get32(sec, 32 * k + 8), Get32(sec, 32 * k + 12))
  }

  function InodeBytes(x: Inode): (r: seq<byte>)
    ensures |r| == 16
  {
    Bytes32(x.mode) + Bytes32(x.size) + Bytes32(x.start) + Bytes32(x.nr)
  }

  /** The sector with the bytes from o on replaced. */
  function Splice(sec: seq<byte>, o: nat, bytes: seq<byte>): (r: seq<byte>)
    requires o + |bytes| <= |sec|
    ensures |r| == |sec|
    ensures forall i | 0 <= i < |sec| :: r[i] == if o <= i < o + |bytes| then bytes[i - o] else sec[i]
  {
    sec[..o] + bytes + sec[o + |bytes|..]
  }

  lemma Get32Elsewhere(s: seq<byte>, s': seq<byte>, o: nat)
    requires o + 4 <= |s| == |s'| && s[o] == s'[o] && s[o + 1] == s'[o + 1] && s[o + 2] == s'[o + 2] && s[o + 3] == s'[o + 3]
    ensures Get32(s, o) == Get32(s', o)
  {
    hide Value;
  }

  /** A stored inode is read back, and its neighbours are not touched. */
  lemma InodeRoundTrip(sec: seq<byte>, k: nat, x: Inode)
    requires |sec| == 512 && k < 16 && Storable(x)
    ensures var sec' := Splice(sec, 32 * k, InodeBytes(x));
            && InodeIn(sec', k) == x
            && forall k' | 0 <= k' < 16 && k' != k :: InodeIn(sec', k') == InodeIn(sec, k')
  {
    hide Get32, Bytes32, Splice;
    var o := 32 * k;
    var b := InodeBytes(x);
    var sec' := Splice(sec, o, b);
    assert b[0..4] == Bytes32(x.mode) && b[4..8] == Bytes32(x.size) && b[8..12] == Bytes32(x.start) && b[12..16] == Bytes32(x.nr);
    assert sec'[o..o + 4] == b[0..4] && sec'[o + 4..o + 8] == b[4..8];
    assert sec'[o + 8..o + 12] == b[8..12] && sec'[o + 12..o + 16] == b[12..16];
    Number32RoundTrip(x.mode, sec', o);
    Number32RoundTrip(x.size, sec', o + 4);
    Number32RoundTrip(x.start, sec', o + 8);
    Number32RoundTrip(x.nr, sec', o + 12);
    forall k' | 0 <= k' < 16 && k' != k ensures InodeIn(sec', k') == InodeIn(sec, k') {
      Get32Elsewhere(sec, sec', 32 * k');
      Get32Elsewhere(sec, sec', 32 * k' + 4);
      Get32Elsewhere(sec, sec', 32 * k' + 8);
      Get32Elsewhere(sec, sec', 32 * k' + 12);
    }
  }

  /** The inodes on disk; inode number n is element n - 1. */
  function Inodes(d: seq<Sector>, ino0: nat): (r: seq<Inode>)
    requires ino0 + NR_INODE_SECTS <= |d|
    ensures |r| == NR_INODES
  {
    seq(NR_INODES, i requires 0 <= i < NR_INODES => InodeIn(d[ino0 + i / 16], i % 16))
  }

  lemma InodeStored(d: seq<Sector>, d': seq<Sector>, ino0: nat, i: nat, x: Inode)
    requires ino0 + NR_INODE_SECTS <= |d| && i < NR_INODES && Storable(x)
    requires d' == d[ino0 + i / 16 := Splice(d[ino0 + i / 16], 32 * (i % 16), InodeBytes(x))]
    ensures Inodes(d', ino0) == Inodes(d, ino0)[i := x]
  {
    hide InodeIn, Splice, InodeBytes;
    InodeRoundTrip(d[ino0 + i / 16], i % 16, x);
    forall i' | 0 <= i' < NR_INODES ensures Inodes(d', ino0)[i'] == Inodes(d, ino0)[i := x][i'] {
      if i' / 16 == i / 16 && i' % 16 == i % 16 {
        assert i' == i;
      }
    }
  }

  // ---------------------------------------------------------------- the inode table

  /** First slot below n that holds inode num, or -1. */
  function FindUsed(t: seq<Slot>, num: nat, n: nat): (r: int)
    requires n <= |t|
    ensures -1 <= r < n
    ensures r >= 0 ==> t[r].cnt > 0 && t[r].num == num
    ensures forall i | 0 <= i < n && (r < 0 || i < r) :: !(t[i].cnt > 0 && t[i].num == num)
  {
    if n == 0 then -1
    else
      var r := FindUsed(t, num, n - 1);
      if r >= 0 then r else if t[n - 1].cnt > 0 && t[n - 1].num == num then n - 1 else -1
  }

  /** First free slot below n, or -1. */
  function FindFree(t: seq<Slot>, n: nat): (r: int)
    requires n <= |t|
    ensures -1 <= r < n
    ensures r >= 0 ==> t[r].cnt == 0
    ensures forall i | 0 <= i < n && (r < 0 || i < r) :: t[i].cnt > 0
  {
    if n == 0 then -1
    else
      var r := FindFree(t, n - 1);
      if r >= 0 then r else if t[n - 1].cnt == 0 then n - 1 else -1
  }

  /** What a request for an inode finds. The number 0 stands for no inode. */
  datatype Found = NoInode | TableFull | At(p: nat)

  /** One more reference to inode num: its slot, or a free slot filled from disk. */
  function Get(t: seq<Slot>, inodes: seq<Inode>, num: nat): (r: (seq<Slot>, Found))
    requires num <= |inodes|
    ensures |r.0| == |t| && (r.1.At? ==> r.1.p < |t|)
  {
    if num == 0 then (t, NoInode)
    else
      var p, q := FindUsed(t, num, |t|), FindFree(t, |t|);
      if p >= 0 then (t[p := t[p].(cnt := t[p].cnt + 1)], At(p))
      else if q >= 0 then (t[q := Slot(1, num, inodes[num - 1])], At(q))
      else (t, TableFull)
  }

  /** Reads inode num from disk. */
  method LoadInode(dev: Device, ino0: nat, num: nat) returns (x: Inode)
    requires dev.Valid() && ino0 + NR_INODE_SECTS <= dev.disk.Length && 0 < num <= NR_INODES
    modifies dev.fsbuf
    ensures x == Inodes(dev.disk[..], ino0)[num - 1]
  {
    hide Get32, InodeIn;
    var blk := ino0 + (num - 1) / (SECTOR_SIZE / INODE_SIZE);
    dev.RdSect(blk);
    var o := (num - 1) % (SECTOR_SIZE / INODE_SIZE) * INODE_SIZE;
    InodeInBuffer(dev.fsbuf[..], dev.disk[blk], (num - 1) % 16);
    x := Inode(Get32(dev.fsbuf[..], o), Get32(dev.fsbuf[..], o + 4),
               Get32(dev.fsbuf[..], o + 8), Get32(dev.fsbuf[..], o + 12));
  }

  /** Looks through the table for inode num, for a free slot on the way. */
  method FindSlot(table: array<Slot>, num: nat) returns (p: int, q: int)
    ensures p == FindUsed(table[..], num, table.Length)
    ensures p < 0 ==> q == FindFree(table[..], table.Length)
  {
    p, q := -1, -1;
    for i := 0 to table.Length
      invariant q == FindFree(table[..], i) && FindUsed(table[..], num, i) == -1
    {
      if table[i].cnt > 0 {
        if table[i].num == num {
          FoundFirst(table[..], num, i);
          p := i;
          return;
        }
      } else if q < 0 {
        q := i;
      }
    }
  }

  method GetInode(dev: Device, table: array<Slot>, ino0: nat, num: nat) returns (r: Found)
    requires dev.Valid() && ino0 + NR_INODE_SECTS <= dev.disk.Length && num <= NR_INODES
    requires table as object != dev.fsbuf && table as object != dev.disk
    modifies table, dev.fsbuf
    ensures (table[..], r) == Get(old(table[..]), Inodes(dev.disk[..], ino0), num)
  {
    hide FindUsed, FindFree, Inodes;
    ghost var t := table[..];
    if num == 0 {
      return NoInode;
    }
    var p, q := FindSlot(table, num);
    if p >= 0 {
      table[p] := table[p].(cnt := table[p].cnt + 1);
      assert table[..] == t[p := t[p].(cnt := t[p].cnt + 1)];
      return At(p);
    }
    if q < 0 {
      return TableFull;
    }
    var x := LoadInode(dev, ino0, num);
    table[q] := Slot(1, num, x);
    assert table[..] == t[q := Slot(1, num, x)];
    return At(q);
  }

  lemma FoundFirst(t: seq<Slot>, num: nat, p: nat)
    requires p < |t| && t[p].cnt > 0 && t[p].num == num && FindUsed(t, num, p) == -1
    ensures FindUsed(t, num, |t|) == p
  {
    FoundFirstBelow(t, num, p, |t|);
  }

  lemma {:induction false} FoundFirstBelow(t: seq<Slot>, num: nat, p: nat, n: nat)
    requires p < n <= |t| && t[p].cnt > 0 && t[p].num == num && FindUsed(t, num, p) == -1
    ensures FindUsed(t, num, n) == p
  {
    if n > p + 1 {
      FoundFirstBelow(t, num, p, n - 1);
    }
  }

  lemma InodeInBuffer(buf: seq<byte>, sec: seq<byte>, k: nat)
    requires |sec| == 512 <= |buf| && buf[..512] == sec && k < 16
    ensures InodeIn(sec, k) == Inode(Get32(buf, 32 * k), Get32(buf, 32 * k + 4), Get32(buf, 32 * k + 8), Get32(buf, 32 * k + 12))
  {
    hide Value;
    forall i | 0 <= i < 512 ensures buf[i] == sec[i] {
      assert buf[i] == buf[..512][i];
    }
  }

  /** One reference less. */
  method PutInode(table: array<Slot>, p: nat)
    requires p < table.Length && table[p].cnt > 0
    modifies table
    ensures table[..] == old(table[..])[p := old(table[p]).(cnt := old(table[p]).cnt - 1)]
  {
    table[p] := table[p].(cnt := table[p].cnt - 1);
  }

  /** Stores a 32-bit number in the buffer. */
  method Put32(dev: Device, o: nat, x: nat)
    requires dev.Valid() && o + 4 <= dev.fsbuf.Length
    modifies dev.fsbuf
    ensures dev.fsbuf[..] == Splice(old(dev.fsbuf[..]), o, Bytes32(x))
  {
    var b := Bytes32(x);
    for i := 0 to 4
      invariant dev.fsbuf[..] == Splice(old(dev.fsbuf[..]), o, b[..i])
    {
      dev.fsbuf[o + i] := b[i];
    }
    assert b[..4] == b;
  }

  /** Stores an inode in the buffered sector. */
  method PutInodeBytes(dev: Device, k: nat, x: Inode)
    requires dev.Valid() && k < 16
    modifies dev.fsbuf
    ensures dev.fsbuf[..512] == Splice(old(dev.fsbuf[..512]), 32 * k, InodeBytes(x))
  {
    assert dev.fsbuf[..][..512] == dev.fsbuf[..512];
    hide Bytes32, Splice;
    var o := 32 * k;
    ghost var s := dev.fsbuf[..];
    var b0, b1, b2, b3 := Bytes32(x.mode), Bytes32(x.size), Bytes32(x.start), Bytes32(x.nr);
    Put32(dev, o, x.mode);
    Put32(dev, o + 4, x.size);
    SpliceTwice(s, o, b0, b1);
    Put32(dev, o + 8, x.start);
    SpliceTwice(s, o, b0 + b1, b2);
    Put32(dev, o + 12, x.nr);
    SpliceTwice(s, o, b0 + b1 + b2, b3);
    SplicePrefix(s, o, InodeBytes(x));
    assert dev.fsbuf[..][..512] == dev.fsbuf[..512];
  }

  lemma SpliceTwice(s: seq<byte>, o: nat, a: seq<byte>, b: seq<byte>)
    requires o + |a| + |b| <= |s|
    ensures Splice(Splice(s, o, a), o + |a|, b) == Splice(s, o, a + b)
  {
    hide Splice;
  }

  lemma SplicePrefix(s: seq<byte>, o: nat, a: seq<byte>)
    requires o + |a| <= 512 <= |s|
    ensures Splice(s, o, a)[..512] == Splice(s[..512], o, a)
  {
    hide Splice;
  }

  /** Writes the inode in slot p back to disk. */
  method SyncInode(dev: Device, table: array<Slot>, ino0: nat, p: nat)
    requires dev.Valid() && ino0 + NR_INODE_SECTS <= dev.disk.Length && p < table.Length
    requires table as object != dev.disk && table as object != dev.fsbuf
    requires 0 < table[p].num <= NR_INODES && Storable(table[p].ino)
    modifies dev.disk, dev.fsbuf
    ensures SameOutside(old(dev.disk[..]), dev.disk[..], ino0, NR_INODE_SECTS)
    ensures Inodes(dev.disk[..], ino0) == Inodes(old(dev.disk[..]), ino0)[table[p].num - 1 := table[p].ino]
  {
    hide Inodes, InodeBytes, Splice;
    ghost var d := dev.disk[..];
    var x, i := table[p].ino, table[p].num - 1;
    var blk := ino0 + i / (SECTOR_SIZE / INODE_SIZE);
    dev.RdSect(blk);
    PutInodeBytes(dev, i % (SECTOR_SIZE / INODE_SIZE), x);
    dev.WrSect(blk);
    InodeStored(d, dev.disk[..], ino0, i, x);
  }
}
