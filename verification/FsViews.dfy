/** The state of the file system as a view of the sectors on disk. */
module FsViews {
  import opened Options
  import opened FsBits
  import opened FsDevice
  import opened FsMaps
  import opened FsInodes
  import opened FsDirectory
  import opened FsEntries
  import opened FsTransfer
  import opened FsState

  /** First sector behind the directory. */
  function DataSect(nSmap: nat): nat { FirstSect(nSmap) + FILE_SECTS }

  /** The bytes from sector s on. */
  function FlatFrom(d: seq<Sector>, s: nat): (r: seq<byte>)
    requires s <= |d|
    ensures |r| == 512 * (|d| - s)
  {
    Flat(d)[512 * s..]
  }

  /** What the disk d and the tables stand for. */
  function AsFs(nSmap: nat, d: seq<Sector>, table: seq<Slot>, fdt: seq<Desc>, filp: seq<seq<Option<nat>>>): (fs: Fs)
    requires DataSect(nSmap) <= |d|
    ensures |fs.imapBits| == MAP_BITS && |fs.smapBits| == nSmap * MAP_BITS && |fs.inodes| == NR_INODES && |fs.dir| == DIR_SLOTS
  {
    Fs(nSmap, Bits(d, IMAP_SECT, 1), Bits(d, SMAP_SECT, nSmap), Inodes(d, InodeSect(nSmap)), Dir(d, FirstSect(nSmap)),
       FlatFrom(d, DataSect(nSmap)), table, fdt, filp)
  }

  /** The same disk with other tables. */
  lemma OtherTables(nSmap: nat, d: seq<Sector>, t: seq<Slot>, fdt: seq<Desc>, filp: seq<seq<Option<nat>>>,
                    t': seq<Slot>, fdt': seq<Desc>, filp': seq<seq<Option<nat>>>)
    requires DataSect(nSmap) <= |d|
    ensures AsFs(nSmap, d, t', fdt', filp') == AsFs(nSmap, d, t, fdt, filp).(table := t', fdt := fdt', filp := filp')
  {}

  // ---------------------------------------------------------------- what does not change

  lemma MapFrame(d: seq<Sector>, d': seq<Sector>, s0: nat, n: nat)
    requires s0 + n <= |d| && |d'| == |d| && forall s | s0 <= s < s0 + n :: d'[s] == d[s]
    ensures Bits(d', s0, n) == Bits(d, s0, n)
  {
    hide Bit;
    forall b | 0 <= b < n * MAP_BITS ensures Bits(d', s0, n)[b] == Bits(d, s0, n)[b] {
      var s := s0 + b / 4096;
      assert s0 <= s < s0 + n && d'[s] == d[s];
    }
  }

  lemma DataFrame(d: seq<Sector>, d': seq<Sector>, s0: nat)
    requires s0 <= |d| && |d'| == |d| && forall s | s0 <= s < |d| :: d'[s] == d[s]
    ensures FlatFrom(d', s0) == FlatFrom(d, s0)
  {
    forall a | 512 * s0 <= a < 512 * |d| ensures Flat(d')[a] == Flat(d)[a] {
      assert s0 <= a / 512 < |d|;
    }
  }

  /** Only the inode map is different. */
  lemma ImapChanged(nSmap: nat, d: seq<Sector>, d': seq<Sector>, t: seq<Slot>, fdt: seq<Desc>, filp: seq<seq<Option<nat>>>)
    requires DataSect(nSmap) <= |d| && SameOutside(d, d', IMAP_SECT, 1)
    ensures AsFs(nSmap, d', t, fdt, filp) == AsFs(nSmap, d, t, fdt, filp).(imapBits := Bits(d', IMAP_SECT, 1))
  {
    hide Bits, Inodes, Dir, FlatFrom;
    MapFrame(d, d', SMAP_SECT, nSmap);
    InodesFrame(d, d', InodeSect(nSmap));
    DirFrame(d, d', FirstSect(nSmap));
    DataFrame(d, d', DataSect(nSmap));
  }

  /** Only the sector map is different. */
  lemma SmapChanged(nSmap: nat, d: seq<Sector>, d': seq<Sector>, t: seq<Slot>, fdt: seq<Desc>, filp: seq<seq<Option<nat>>>)
    requires DataSect(nSmap) <= |d| && SameOutside(d, d', SMAP_SECT, nSmap)
    ensures AsFs(nSmap, d', t, fdt, filp) == AsFs(nSmap, d, t, fdt, filp).(smapBits := Bits(d', SMAP_SECT, nSmap))
  {
    hide Bits, Inodes, Dir, FlatFrom;
    MapFrame(d, d', IMAP_SECT, 1);
    InodesFrame(d, d', InodeSect(nSmap));
    DirFrame(d, d', FirstSect(nSmap));
    DataFrame(d, d', DataSect(nSmap));
  }

  /** Only inodes are different. */
  lemma InodesChanged(nSmap: nat, d: seq<Sector>, d': seq<Sector>, t: seq<Slot>, fdt: seq<Desc>, filp: seq<seq<Option<nat>>>)
    requires DataSect(nSmap) <= |d| && SameOutside(d, d', InodeSect(nSmap), NR_INODE_SECTS)
    ensures AsFs(nSmap, d', t, fdt, filp) == AsFs(nSmap, d, t, fdt, filp).(inodes := Inodes(d', InodeSect(nSmap)))
  {
    hide Bits, Inodes, Dir, FlatFrom;
    MapFrame(d, d', IMAP_SECT, 1);
    MapFrame(d, d', SMAP_SECT, nSmap);
    DirFrame(d, d', FirstSect(nSmap));
    DataFrame(d, d', DataSect(nSmap));
  }

  /** Only inodes and the directory are different. */
  lemma DirChanged(nSmap: nat, d: seq<Sector>, d': seq<Sector>, t: seq<Slot>, fdt: seq<Desc>, filp: seq<seq<Option<nat>>>)
    requires DataSect(nSmap) <= |d| && SameBut(d, d', InodeSect(nSmap), NR_INODE_SECTS, FirstSect(nSmap), DIR_SECTS)
    ensures AsFs(nSmap, d', t, fdt, filp)
            == AsFs(nSmap, d, t, fdt, filp).(inodes := Inodes(d', InodeSect(nSmap)), dir := Dir(d', FirstSect(nSmap)))
  {
    hide Bits, Inodes, Dir, FlatFrom;
    MapFrame(d, d', IMAP_SECT, 1);
    MapFrame(d, d', SMAP_SECT, nSmap);
    DataFrame(d, d', DataSect(nSmap));
  }

  /** Bytes of the data are stored, and nothing else is different. */
  lemma DataChanged(nSmap: nat, d: seq<Sector>, d': seq<Sector>, t: seq<Slot>, fdt: seq<Desc>, filp: seq<seq<Option<nat>>>,
                    a: nat, b: seq<byte>)
    requires DataSect(nSmap) <= |d| == |d'| && 512 * DataSect(nSmap) <= a && (|b| > 0 ==> a + |b| <= 512 * |d|)
    requires Flat(d') == Put(Flat(d), a, b)
    ensures var fs := AsFs(nSmap, d, t, fdt, filp);
            && (|b| > 0 ==> a - 512 * DataSect(nSmap) + |b| <= |fs.data|)
            && AsFs(nSmap, d', t, fdt, filp) == fs.(data := Put(fs.data, a - 512 * DataSect(nSmap), b))
  {
    forall s | 0 <= s < DataSect(nSmap) ensures d'[s] == d[s] {
      SameSector(d, d', s);
    }
    hide Flat, Bits, Inodes, Dir;
    PutFrom(Flat(d), 512 * DataSect(nSmap), a, b);
    MapFrame(d, d', IMAP_SECT, 1);
    MapFrame(d, d', SMAP_SECT, nSmap);
    InodesFrame(d, d', InodeSect(nSmap));
    DirFrame(d, d', FirstSect(nSmap));
  }

  lemma PutFrom(f: seq<byte>, o: nat, a: nat, b: seq<byte>)
    requires o <= |f| && o <= a && (|b| > 0 ==> a + |b| <= |f|)
    ensures Put(f, a, b)[o..] == Put(f[o..], a - o, b)
  {}

  // ---------------------------------------------------------------- one bit of the inode map

  lemma SetOne(bits: seq<bool>, i: nat, v: bool)
    requires i < |bits|
    ensures SetRange(bits, i, 1, v) == bits[i := v]
  {}

  /** Clears bit nr of the inode map. */
  method FreeImapBit(dev: Device, nr: nat)
    requires dev.Valid() && IMAP_SECT < dev.disk.Length && nr < MAP_BITS && Bits(dev.disk[..], IMAP_SECT, 1)[nr]
    modifies dev.disk, dev.fsbuf
    ensures SameOutside(old(dev.disk[..]), dev.disk[..], IMAP_SECT, 1)
    ensures Bits(dev.disk[..], IMAP_SECT, 1) == old(Bits(dev.disk[..], IMAP_SECT, 1))[nr := false]
  {
    hide Bit, One, Bits, SetRange;
    ghost var d := dev.disk[..];
    var j, k := nr / 8, nr % 8;
    dev.RdSect(IMAP_SECT);
    ghost var o := d[IMAP_SECT];
    assert dev.fsbuf[j] == o[j] by {
      assert dev.fsbuf[j] == dev.fsbuf[..512][j];
    }
    assert Bit(dev.fsbuf[j], k) by {
      BitsAt(d, IMAP_SECT, 1, 0, j, k);
      assert Pos(0, j, k) == nr;
    }
    dev.fsbuf[j] := dev.fsbuf[j] & !One(k);
    forall y | 0 <= y < 8 ensures Bit(dev.fsbuf[j], y) == if k <= 0 + y < k + 1 then false else Bit(o[j], y) {
      ClearBit(o[j], k, y);
    }
    assert dev.fsbuf[..512] == o[j := dev.fsbuf[j]];
    SectorUnmarked(o, 0, nr, nr, false);
    SectorExtend(o, o, 0, j, dev.fsbuf[j], k, nr, nr, nr + 1, false);
    NothingMarked(d, IMAP_SECT, 1, nr, false);
    MapExtend(d, d, IMAP_SECT, 1, 0, dev.fsbuf[..512], nr, nr, nr + 1, false);
    dev.WrSect(IMAP_SECT);
    MarkedRange(d, dev.disk[..], IMAP_SECT, 1, nr, 1, false);
    SetOne(Bits(d, IMAP_SECT, 1), nr, false);
  }
}
