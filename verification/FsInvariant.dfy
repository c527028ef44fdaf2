/** What holds of the file system after every request: the maps say exactly what is in use,
    no two files share a sector, the directory is a map from names to inodes, and the table
    of inodes agrees with the disk. */
module FsInvariant {
  import opened Options
  import opened FsBits
  import opened FsMaps
  import opened FsInodes
  import opened FsDirectory
  import opened FsState

  // ---------------------------------------------------------------- the directory

  /** The directory has an entry for inode i. */
  ghost predicate InDir(dir: seq<Entry>, i: nat) {
    exists e | 0 <= e < |dir| :: dir[e].nr == i
  }

  ghost predicate UnusedZero(dir: seq<Entry>) {
    forall e | 0 <= e < |dir| :: dir[e].nr == 0 ==> dir[e] == NO_ENTRY
  }

  ghost predicate UsedNamed(dir: seq<Entry>) {
    forall e | 0 <= e < |dir| :: dir[e].nr != 0 ==> IsName(dir[e].name) && dir[e].nr < MAP_BITS
  }

  /** No two used entries have the same inode, or the same name. */
  ghost predicate Distinct(dir: seq<Entry>) {
    forall e, e' | 0 <= e < e' < |dir| && dir[e].nr != 0 && dir[e'].nr != 0 ::
      dir[e].nr != dir[e'].nr && dir[e].name != dir[e'].name
  }

  /** Nothing is in use from entry n on. */
  ghost predicate EmptyFrom(dir: seq<Entry>, n: nat) {
    forall e | n <= e < |dir| :: dir[e].nr == 0
  }

  ghost predicate DirOk(dir: seq<Entry>, size: nat) {
    && |dir| == DIR_SLOTS && size % 16 == 0 && size <= 16 * 4095
    && EmptyFrom(dir, size / 16) && UnusedZero(dir) && UsedNamed(dir) && Distinct(dir)
  }

  // ---------------------------------------------------------------- inodes and maps

  ghost predicate InodeMapExact(bits: seq<bool>, dir: seq<Entry>) {
    |bits| == MAP_BITS && bits[0] && forall i | 1 <= i < MAP_BITS :: bits[i] <==> InDir(dir, i)
  }

  /** How many whole blocks of 2048 sectors the sector map has bits for. */
  function Blocks(nSmap: nat): int { 2 * nSmap - 1 }

  ghost predicate HasExtent(x: Inode) { x.mode == I_REGULAR || x.mode == I_DIRECTORY }

  /** Inode i is in use and its extent is block s. */
  ghost predicate Owns(nSmap: nat, bits: seq<bool>, inodes: seq<Inode>, i: nat, s: nat) {
    && 1 <= i < |bits| == MAP_BITS && |inodes| == NR_INODES && s < Blocks(nSmap)
    && bits[i] && HasExtent(inodes[i - 1]) && inodes[i - 1].start == FirstSect(nSmap) + FILE_SECTS * s
  }

  ghost predicate Taken(nSmap: nat, bits: seq<bool>, inodes: seq<Inode>, s: nat) {
    exists i: nat :: Owns(nSmap, bits, inodes, i, s)
  }

  /** No two inodes have the same extent. */
  ghost predicate ExtentsDisjoint(nSmap: nat, bits: seq<bool>, inodes: seq<Inode>) {
    forall i: nat, j: nat, s: nat :: Owns(nSmap, bits, inodes, i, s) && Owns(nSmap, bits, inodes, j, s) ==> i == j
  }

  /** The bit of a sector is set exactly when its block belongs to an inode; bit 0 is set. */
  ghost predicate SectorMapExact(nSmap: nat, smapBits: seq<bool>, bits: seq<bool>, inodes: seq<Inode>) {
    && nSmap > 0 && |smapBits| == nSmap * MAP_BITS && smapBits[0]
    && forall b | 1 <= b < |smapBits| :: smapBits[b] <==> Taken(nSmap, bits, inodes, (b - 1) / FILE_SECTS)
  }

  /** An inode in use is the directory, a regular file with an extent, or a terminal. */
  ghost predicate InodeOk(nSmap: nat, i: nat, x: Inode, dataSize: nat) {
    && Storable(x)
    && (i == ROOT_INODE ==> x.mode == I_DIRECTORY && x.start == FirstSect(nSmap))
    && (i != ROOT_INODE ==> x.mode == I_REGULAR || x.mode == I_CHAR_SPECIAL)
    && (x.mode == I_REGULAR ==>
          && x.nr == FILE_SECTS && x.size <= FILE_BYTES && Base(nSmap, x) >= 0
          && x.start < FirstSect(nSmap) + FILE_SECTS * Blocks(nSmap) && (x.start - FirstSect(nSmap)) % FILE_SECTS == 0
          && (x.size > 0 ==> Base(nSmap, x) + x.size <= dataSize))
  }

  ghost predicate InodesOk(nSmap: nat, bits: seq<bool>, inodes: seq<Inode>, dataSize: nat) {
    && |bits| == MAP_BITS && |inodes| == NR_INODES && bits[ROOT_INODE]
    && forall i | 1 <= i < MAP_BITS && bits[i] :: InodeOk(nSmap, i, inodes[i - 1], dataSize)
  }

  // ---------------------------------------------------------------- the tables

  /** A slot in use holds what the disk holds. */
  ghost predicate SlotOk(x: Slot, bits: seq<bool>, inodes: seq<Inode>) {
    x.cnt > 0 ==> 1 <= x.num < |bits| && x.num <= |inodes| && bits[x.num] && x.ino == inodes[x.num - 1]
  }

  ghost predicate Coherent(table: seq<Slot>, bits: seq<bool>, inodes: seq<Inode>) {
    && (forall p | 0 <= p < |table| :: SlotOk(table[p], bits, inodes))
    && (forall p, q | 0 <= p < q < |table| && table[p].cnt > 0 && table[q].cnt > 0 :: table[p].num != table[q].num)
    && |table| == NR_INODE && table[ROOT_SLOT].cnt > 0 && table[ROOT_SLOT].num == ROOT_INODE
  }

  predicate Refers(x: Desc, p: nat) { x.slot == Some(p) }

  /** How many descriptors refer to slot p. */
  function Refs(fdt: seq<Desc>, p: nat): nat {
    if fdt == [] then 0 else Refs(fdt[..|fdt| - 1], p) + if Refers(fdt[|fdt| - 1], p) then 1 else 0
  }

  /** References to slot p: one for each descriptor, and one to the root directory. */
  function References(fdt: seq<Desc>, p: nat): nat {
    Refs(fdt, p) + if p == ROOT_SLOT then 1 else 0
  }

  ghost predicate Counted(table: seq<Slot>, fdt: seq<Desc>) {
    forall p | 0 <= p < |table| :: References(fdt, p) <= table[p].cnt
  }

  /** A descriptor in use has an inode; its position is not past the end of the file, and
      stays 0 when the inode is not a regular file. */
  ghost predicate DescOk(x: Desc, table: seq<Slot>) {
    x.slot.Some? ==>
      && x.slot.value < |table| && table[x.slot.value].cnt > 0
      && x.pos <= if table[x.slot.value].ino.mode == I_REGULAR then table[x.slot.value].ino.size else 0
  }

  ghost predicate DescsOk(table: seq<Slot>, fdt: seq<Desc>) {
    |fdt| == NR_FILE_DESC && forall d | 0 <= d < |fdt| :: DescOk(fdt[d], table)
  }

  ghost predicate Holds(filp: seq<seq<Option<nat>>>, q: nat, fd: nat, d: nat) {
    q < |filp| && fd < |filp[q]| && filp[q][fd] == Some(d)
  }

  /** Every open file has a descriptor in use, and no descriptor belongs to two open files. */
  ghost predicate FilesOk(filp: seq<seq<Option<nat>>>, fdt: seq<Desc>) {
    && (forall q | 0 <= q < |filp| :: |filp[q]| == NR_FILES)
    && (forall q: nat, fd: nat, d: nat :: Holds(filp, q, fd, d) ==> d < |fdt| && fdt[d].slot.Some?)
    && (forall q: nat, fd: nat, q': nat, fd': nat, d: nat :: Holds(filp, q, fd, d) && Holds(filp, q', fd', d) ==> q == q' && fd == fd')
  }

  ghost predicate Inv(fs: Fs) {
    && FirstSect(fs.nSmap) + fs.nSmap * 4096 < LIMIT32
    && Coherent(fs.table, fs.imapBits, fs.inodes)
    && DirOk(fs.dir, DirSize(fs.table))
    && InodeMapExact(fs.imapBits, fs.dir)
    && InodesOk(fs.nSmap, fs.imapBits, fs.inodes, |fs.data|)
    && ExtentsDisjoint(fs.nSmap, fs.imapBits, fs.inodes)
    && SectorMapExact(fs.nSmap, fs.smapBits, fs.imapBits, fs.inodes)
    && Counted(fs.table, fs.fdt)
    && DescsOk(fs.table, fs.fdt)
    && FilesOk(fs.filp, fs.fdt)
  }

  lemma InvShape(fs: Fs)
    requires Inv(fs)
    ensures Shape(fs)
  {}

  // ---------------------------------------------------------------- the discipline of blocks

  /** The first free bit starts a block, and the block is wholly free if the map has bits for
      all of it. So the allocation never finds a set bit behind a clear one, and it runs out
      of bits exactly when no whole block is free. */
  lemma FreeBlock(nSmap: nat, smapBits: seq<bool>, bits: seq<bool>, inodes: seq<Inode>, f: nat)
    requires SectorMapExact(nSmap, smapBits, bits, inodes) && IsFirstFree(smapBits, f)
    ensures f % FILE_SECTS == 1
    ensures forall b | f <= b < |smapBits| && b < f + FILE_SECTS :: !smapBits[b]
    ensures Uniform(smapBits, f, FILE_SECTS, false) <==> f / FILE_SECTS < Blocks(nSmap)
  {
    hide Taken;
    var s := (f - 1) / FILE_SECTS;
    var b := 1 + FILE_SECTS * s;
    assert (b - 1) / FILE_SECTS == s;
    assert smapBits[b] == smapBits[f] == Taken(nSmap, bits, inodes, s);
    forall b' | f <= b' < |smapBits| && b' < f + FILE_SECTS ensures !smapBits[b'] {
      assert (b' - 1) / FILE_SECTS == s;
    }
  }

  /** There always is a free bit. */
  lemma SomeBitFree(nSmap: nat, smapBits: seq<bool>, bits: seq<bool>, inodes: seq<Inode>)
    requires SectorMapExact(nSmap, smapBits, bits, inodes)
    ensures IsFirstFree(smapBits, FirstFree(smapBits))
  {
    var b := |smapBits| - 1;
    assert (b - 1) / FILE_SECTS >= Blocks(nSmap);
    assert !Taken(nSmap, bits, inodes, (b - 1) / FILE_SECTS);
  }

  /** The first free bit finds a whole block, if and only if some block is not taken. */
  lemma RoomForBlock(nSmap: nat, smapBits: seq<bool>, bits: seq<bool>, inodes: seq<Inode>)
    requires SectorMapExact(nSmap, smapBits, bits, inodes)
    ensures Uniform(smapBits, FirstFree(smapBits), FILE_SECTS, false)
            <==> exists s: nat :: s < Blocks(nSmap) && !Taken(nSmap, bits, inodes, s)
  {
    var f := FirstFree(smapBits);
    SomeBitFree(nSmap, smapBits, bits, inodes);
    FreeBlock(nSmap, smapBits, bits, inodes, f);
    hide Taken;
    if f / FILE_SECTS < Blocks(nSmap) {
      assert (f - 1) / FILE_SECTS == f / FILE_SECTS;
      assert !Taken(nSmap, bits, inodes, f / FILE_SECTS);
    }
    forall s: nat | s < Blocks(nSmap) && !Taken(nSmap, bits, inodes, s) ensures f / FILE_SECTS < Blocks(nSmap) {
      var b := 1 + FILE_SECTS * s;
      assert (b - 1) / FILE_SECTS == s && !smapBits[b];
    }
  }
}
