/** Making a new file keeps the invariant. */
module FsCreate {
  import opened FsBits
  import opened FsMaps
  import opened FsInodes
  import opened FsDirectory
  import opened FsEntries
  import opened FsState
  import opened FsInvariant

  // ---------------------------------------------------------------- the directory

  ghost predicate Injective(s: seq<nat>) {
    forall i, j | 0 <= i < j < |s| :: s[i] != s[j]
  }

  /** Different numbers from 1 to m are no more than m. */
  lemma {:induction false} Pigeonhole(s: seq<nat>, m: nat)
    requires Injective(s) && forall i | 0 <= i < |s| :: 1 <= s[i] <= m
    ensures |s| <= m
  {
    if |s| > 0 {
      assert 1 <= s[0] <= m;
      if k: nat :| k < |s| && s[k] == m {
        var t := s[..k] + s[k + 1..];
        forall i | 0 <= i < |t| ensures 1 <= t[i] <= m - 1 {
          assert t[i] == if i < k then s[i] else s[i + 1];
        }
        Pigeonhole(t, m - 1);
      } else {
        Pigeonhole(s, m - 1);
      }
    }
  }

  /** If no entry is free and inode nr has none, there are at most 4094 entries. */
  lemma FullDirectory(dir: seq<Entry>, size: nat, nr: nat)
    requires DirOk(dir, size) && 0 < nr < MAP_BITS && !InDir(dir, nr) && FirstUnused(dir, size / 16) == size / 16
    ensures size / 16 <= 4094
  {
    var s := seq(size / 16 + 1, i requires 0 <= i < size / 16 + 1 => if i < size / 16 then dir[i].nr else nr);
    Pigeonhole(s, 4095);
  }

  /** A name that the directory has no entry for. */
  ghost predicate Unused(dir: seq<Entry>, name: seq<byte>)
    requires |name| <= 12
  {
    forall e | 0 <= e < |dir| :: dir[e].nr != 0 ==> dir[e].name != Padded(name)
  }

  /** The first unused entry is empty, and a name that fits is then there padded with zeros. */
  lemma NewEntry(dir: seq<Entry>, size: nat, nr: nat, name: seq<byte>)
    requires DirOk(dir, size) && Fits(dir, FirstUnused(dir, size / 16), name) && nr > 0
    ensures var e := FirstUnused(dir, size / 16);
            dir[e] == NO_ENTRY && AddName(dir, e, nr, name) == dir[e := Entry(nr, Padded(name))]
  {
    var e := FirstUnused(dir, size / 16);
    assert dir[e].nr == 0;
    if |name| == 12 {
      assert Padded(name) == name;
    } else {
      assert name + [0] + NO_ENTRY.name[|name| + 1..] == Padded(name);
    }
  }

  lemma PaddedNotEmpty(name: seq<byte>)
    requires 0 < |name| <= 12 && 0 !in name
    ensures Padded(name) != NO_ENTRY.name
  {
    assert Padded(name)[0] == name[0];
  }

  /** A new entry with a number and a name that no other entry has. */
  lemma EntryAddedDistinct(dir: seq<Entry>, e: nat, x: Entry)
    requires e < |dir| && Distinct(dir) && !InDir(dir, x.nr)
    requires forall a | 0 <= a < |dir| :: dir[a].nr != 0 ==> dir[a].name != x.name
    ensures Distinct(dir[e := x])
  {
    var dir' := dir[e := x];
    forall a, b | 0 <= a < b < |dir'| && dir'[a].nr != 0 && dir'[b].nr != 0
      ensures dir'[a].nr != dir'[b].nr && dir'[a].name != dir'[b].name
    {
      assert dir[a].nr != x.nr && dir[b].nr != x.nr;
    }
  }

  lemma EntryAddedKept(dir: seq<Entry>, e: nat, x: Entry, n: nat)
    requires e < n <= |dir| && UnusedZero(dir) && UsedNamed(dir) && EmptyFrom(dir, n)
    requires 0 < x.nr < MAP_BITS && IsName(x.name)
    ensures UnusedZero(dir[e := x]) && UsedNamed(dir[e := x]) && EmptyFrom(dir[e := x], n)
  {}

  lemma NameAddedDirOk(dir: seq<Entry>, size: nat, nr: nat, name: seq<byte>)
    requires DirOk(dir, size) && GoodName(name) && Fits(dir, FirstUnused(dir, size / 16), name) && Unused(dir, name)
    requires 0 < nr < MAP_BITS && !InDir(dir, nr)
    ensures DirOk(AddName(dir, FirstUnused(dir, size / 16), nr, name), GrownSize(dir, size))
    ensures GrownSize(dir, size) >= size
  {
    var e := FirstUnused(dir, size / 16);
    NewEntry(dir, size, nr, name);
    if e == size / 16 {
      FullDirectory(dir, size, nr);
    }
    EntryAddedDistinct(dir, e, Entry(nr, Padded(name)));
    hide Padded, FirstUnused, UnusedZero, UsedNamed, Distinct;
    EntryAddedKept(dir, e, Entry(nr, Padded(name)), GrownSize(dir, size) / 16);
  }

  lemma NameAddedMap(bits: seq<bool>, dir: seq<Entry>, e: nat, nr: nat, name: Name12)
    requires InodeMapExact(bits, dir) && e < |dir| && dir[e].nr == 0 && 0 < nr < MAP_BITS
    ensures InodeMapExact(bits[nr := true], dir[e := Entry(nr, name)])
  {
    var bits', dir' := bits[nr := true], dir[e := Entry(nr, name)];
    forall i | 1 <= i < MAP_BITS ensures bits'[i] <==> InDir(dir', i) {
      if InDir(dir, i) {
        var a :| 0 <= a < |dir| && dir[a].nr == i;
        assert dir'[a].nr == i;
      }
      if InDir(dir', i) && i != nr {
        var a :| 0 <= a < |dir'| && dir'[a].nr == i;
        assert dir[a].nr == i;
      }
      assert dir'[e].nr == nr;
    }
  }

  // ---------------------------------------------------------------- inodes and the sector map

  /** The two lists of inodes agree on the extents of what is in use. */
  ghost predicate SameExtents(bits: seq<bool>, inodes: seq<Inode>, inodes': seq<Inode>) {
    && |bits| == MAP_BITS && |inodes| == |inodes'| == NR_INODES
    && forall i | 1 <= i < MAP_BITS && bits[i] ::
         inodes'[i - 1].mode == inodes[i - 1].mode && inodes'[i - 1].start == inodes[i - 1].start
  }

  /** Extents do not depend on anything but start and mode. */
  lemma ExtentsFrame(nSmap: nat, smapBits: seq<bool>, bits: seq<bool>, inodes: seq<Inode>, inodes': seq<Inode>)
    requires SameExtents(bits, inodes, inodes')
    requires ExtentsDisjoint(nSmap, bits, inodes) && SectorMapExact(nSmap, smapBits, bits, inodes)
    ensures ExtentsDisjoint(nSmap, bits, inodes') && SectorMapExact(nSmap, smapBits, bits, inodes')
  {
    forall i: nat, s: nat ensures Owns(nSmap, bits, inodes', i, s) == Owns(nSmap, bits, inodes, i, s) {}
    forall s: nat ensures Taken(nSmap, bits, inodes', s) == Taken(nSmap, bits, inodes, s) {
      if i: nat :| Owns(nSmap, bits, inodes, i, s) {
        assert Owns(nSmap, bits, inodes', i, s);
      }
    }
  }

  lemma OwnsNew(nSmap: nat, bits: seq<bool>, inodes: seq<Inode>, nr: nat, s: nat)
    requires |bits| == MAP_BITS && |inodes| == NR_INODES && 1 <= nr < MAP_BITS && !bits[nr] && s < Blocks(nSmap)
    ensures var bits', inodes' := bits[nr := true], inodes[nr - 1 := NewInode(nSmap, 1 + FILE_SECTS * s)];
            forall i: nat, s': nat ::
              Owns(nSmap, bits', inodes', i, s') <==> Owns(nSmap, bits, inodes, i, s') || (i == nr && s' == s)
  {}

  /** A new inode on a free block. */
  lemma BlockTaken(nSmap: nat, smapBits: seq<bool>, bits: seq<bool>, inodes: seq<Inode>, nr: nat, s: nat)
    requires |bits| == MAP_BITS && |inodes| == NR_INODES && 1 <= nr < MAP_BITS && !bits[nr] && s < Blocks(nSmap)
    requires ExtentsDisjoint(nSmap, bits, inodes) && SectorMapExact(nSmap, smapBits, bits, inodes)
    requires !Taken(nSmap, bits, inodes, s)
    ensures var bits', inodes' := bits[nr := true], inodes[nr - 1 := NewInode(nSmap, 1 + FILE_SECTS * s)];
            && ExtentsDisjoint(nSmap, bits', inodes')
            && SectorMapExact(nSmap, SetRange(smapBits, 1 + FILE_SECTS * s, FILE_SECTS, true), bits', inodes')
  {
    hide Owns, SetRange, NewInode;
    var bits', inodes' := bits[nr := true], inodes[nr - 1 := NewInode(nSmap, 1 + FILE_SECTS * s)];
    var map' := SetRange(smapBits, 1 + FILE_SECTS * s, FILE_SECTS, true);
    OwnsNew(nSmap, bits, inodes, nr, s);
    forall s': nat ensures Taken(nSmap, bits', inodes', s') <==> Taken(nSmap, bits, inodes, s') || s' == s {
      if i: nat :| Owns(nSmap, bits, inodes, i, s') {
        assert Owns(nSmap, bits', inodes', i, s');
      }
      assert Owns(nSmap, bits', inodes', nr, s);
    }
    hide Taken;
    forall b | 1 <= b < |map'| ensures map'[b] <==> Taken(nSmap, bits', inodes', (b - 1) / FILE_SECTS) {
      assert smapBits[b] <==> Taken(nSmap, bits, inodes, (b - 1) / FILE_SECTS);
      assert 1 + FILE_SECTS * s <= b < 1 + FILE_SECTS * s + FILE_SECTS <==> (b - 1) / FILE_SECTS == s;
    }
  }

  lemma NewInodeOk(nSmap: nat, bits: seq<bool>, inodes: seq<Inode>, dataSize: nat, nr: nat, s: nat)
    requires InodesOk(nSmap, bits, inodes, dataSize) && FirstSect(nSmap) + nSmap * 4096 < LIMIT32
    requires 1 < nr < MAP_BITS && 0 < s < Blocks(nSmap)
    ensures InodesOk(nSmap, bits[nr := true], inodes[nr - 1 := NewInode(nSmap, 1 + FILE_SECTS * s)], dataSize)
  {
    var x := NewInode(nSmap, 1 + FILE_SECTS * s);
    assert x.start - FirstSect(nSmap) == FILE_SECTS * s;
    assert InodeOk(nSmap, nr, x, dataSize);
    hide InodeOk;
  }

  /** Block 0 belongs to the directory. */
  lemma RootBlock(nSmap: nat, bits: seq<bool>, inodes: seq<Inode>, dataSize: nat)
    requires InodesOk(nSmap, bits, inodes, dataSize) && nSmap > 0
    ensures Owns(nSmap, bits, inodes, ROOT_INODE, 0) && Taken(nSmap, bits, inodes, 0)
  {
    assert InodeOk(nSmap, ROOT_INODE, inodes[ROOT_INODE - 1], dataSize);
    assert Owns(nSmap, bits, inodes, ROOT_INODE, 0);
  }

  // ---------------------------------------------------------------- the inode table

  /** A free slot is filled with a new inode, one that is not in the table. */
  lemma NewSlotCoherent(table: seq<Slot>, bits: seq<bool>, inodes: seq<Inode>, nr: nat, p: nat, x: Inode)
    requires Coherent(table, bits, inodes) && |bits| == MAP_BITS && |inodes| == NR_INODES
    requires 1 <= nr < MAP_BITS && !bits[nr] && p < |table| && table[p].cnt == 0
    ensures Coherent(table[p := Slot(1, nr, x)], bits[nr := true], inodes[nr - 1 := x])
  {
    var t, bits', inodes' := table[p := Slot(1, nr, x)], bits[nr := true], inodes[nr - 1 := x];
    forall q | 0 <= q < |t| ensures SlotOk(t[q], bits', inodes') && (q != p && t[q].cnt > 0 ==> t[q].num != nr) {
      assert SlotOk(table[q], bits, inodes);
    }
  }

  lemma NewSlotTables(table: seq<Slot>, fdt: seq<Desc>, nr: nat, p: nat, x: Inode)
    requires Counted(table, fdt) && DescsOk(table, fdt) && p < |table| && table[p].cnt == 0
    ensures var t := table[p := Slot(1, nr, x)]; Counted(t, fdt) && DescsOk(t, fdt) && References(fdt, p) < t[p].cnt
  {
    hide References;
    var t := table[p := Slot(1, nr, x)];
    forall q | 0 <= q < |t| ensures References(fdt, q) <= t[q].cnt {
      assert References(fdt, q) <= table[q].cnt;
    }
    forall d | 0 <= d < |fdt| ensures DescOk(fdt[d], t) {
      assert DescOk(fdt[d], table);
    }
  }

  // ---------------------------------------------------------------- the directory's own inode

  /** The directory's size is changed, in the table and on disk. */
  lemma ResizedCoherent(table: seq<Slot>, bits: seq<bool>, inodes: seq<Inode>, size: nat)
    requires Coherent(table, bits, inodes) && |inodes| == NR_INODES
    ensures var t := Resized(table, size);
            Coherent(t, bits, inodes[ROOT_INODE - 1 := t[ROOT_SLOT].ino])
  {
    var t := Resized(table, size);
    var inodes' := inodes[ROOT_INODE - 1 := t[ROOT_SLOT].ino];
    forall q | 0 <= q < |t| ensures SlotOk(t[q], bits, inodes') {
      assert SlotOk(table[q], bits, inodes);
    }
  }

  lemma ResizedTables(table: seq<Slot>, fdt: seq<Desc>, size: nat)
    requires Counted(table, fdt) && DescsOk(table, fdt) && |table| > 0 && table[ROOT_SLOT].ino.mode == I_DIRECTORY
    ensures Counted(Resized(table, size), fdt) && DescsOk(Resized(table, size), fdt)
  {
    hide References;
    var t := Resized(table, size);
    forall q | 0 <= q < |t| ensures References(fdt, q) <= t[q].cnt {
      assert References(fdt, q) <= table[q].cnt;
    }
    forall d | 0 <= d < |fdt| ensures DescOk(fdt[d], t) {
      assert DescOk(fdt[d], table);
    }
  }

  lemma ResizedInodes(nSmap: nat, smapBits: seq<bool>, bits: seq<bool>, inodes: seq<Inode>, dataSize: nat, size: nat)
    requires InodesOk(nSmap, bits, inodes, dataSize) && size < LIMIT32
    requires ExtentsDisjoint(nSmap, bits, inodes) && SectorMapExact(nSmap, smapBits, bits, inodes)
    ensures var inodes' := inodes[ROOT_INODE - 1 := inodes[ROOT_INODE - 1].(size := size)];
            && InodesOk(nSmap, bits, inodes', dataSize)
            && ExtentsDisjoint(nSmap, bits, inodes') && SectorMapExact(nSmap, smapBits, bits, inodes')
  {
    hide ExtentsDisjoint, SectorMapExact;
    var inodes' := inodes[ROOT_INODE - 1 := inodes[ROOT_INODE - 1].(size := size)];
    assert InodeOk(nSmap, ROOT_INODE, inodes[ROOT_INODE - 1], dataSize);
    ExtentsFrame(nSmap, smapBits, bits, inodes, inodes');
  }

  /** The directory's inode in the table. */
  lemma RootFacts(fs: Fs)
    requires Inv(fs)
    ensures Shape(fs) && fs.table[ROOT_SLOT].num == ROOT_INODE && fs.table[ROOT_SLOT].ino == fs.inodes[ROOT_INODE - 1]
    ensures fs.table[ROOT_SLOT].ino.mode == I_DIRECTORY && fs.imapBits[ROOT_INODE] && fs.imapBits[0]
    ensures fs.table[ROOT_SLOT].ino.start == FirstSect(fs.nSmap) && Storable(fs.table[ROOT_SLOT].ino)
    ensures fs.table[ROOT_SLOT].cnt > 0
  {
    InvShape(fs);
    assert SlotOk(fs.table[ROOT_SLOT], fs.imapBits, fs.inodes);
    assert InodeOk(fs.nSmap, ROOT_INODE, fs.inodes[ROOT_INODE - 1], |fs.data|);
  }

  // ---------------------------------------------------------------- create_file

  /** What Created relies on, given the invariant: a free number, a free block, a free slot and
      an unused name that fits. */
  ghost predicate CanCreate(fs: Fs, name: seq<byte>, nr: nat, s: nat, p: nat)
    requires Shape(fs)
  {
    && GoodName(name) && NameFits(fs, name) && Unused(fs.dir, name)
    && 1 < nr < |fs.imapBits| && !fs.imapBits[nr]
    && 0 < s < Blocks(fs.nSmap) && !Taken(fs.nSmap, fs.imapBits, fs.inodes, s)
    && 0 < p < |fs.table| && fs.table[p].cnt == 0
  }

  /** Making a new file keeps the invariant, and its inode is in the table with a reference
      that no descriptor has yet. */
  lemma CreatedInv(fs: Fs, name: seq<byte>, nr: nat, s: nat, p: nat)
    requires Inv(fs) && Shape(fs) && CanCreate(fs, name, nr, s, p)
    requires 1 + FILE_SECTS * s + FILE_SECTS <= |fs.smapBits|
    ensures var fs' := Created(fs, fs.table, name, nr, 1 + FILE_SECTS * s, p);
            && Inv(fs') && References(fs'.fdt, p) < fs'.table[p].cnt && fs'.table[p].num == nr
  {
    RootFacts(fs);
    assert !InDir(fs.dir, nr);
    assert InodesOk(fs.nSmap, fs.imapBits, fs.inodes, |fs.data|);
    hide DirOk, InodeMapExact, InodesOk, ExtentsDisjoint, SectorMapExact, Counted, DescsOk, FilesOk, Coherent, References;
    hide InDir, Taken, Unused, AddName, GrownSize, FirstUnused, SetRange, NewInode, Padded;
    var size, size' := DirSize(fs.table), GrownSize(fs.dir, DirSize(fs.table));
    var x := NewInode(fs.nSmap, 1 + FILE_SECTS * s);
    var t, bits', inodes1 := fs.table[p := Slot(1, nr, x)], fs.imapBits[nr := true], fs.inodes[nr - 1 := x];
    NameAddedDirOk(fs.dir, size, nr, name);
    NewEntry(fs.dir, size, nr, name);
    NameAddedMap(fs.imapBits, fs.dir, FirstUnused(fs.dir, size / 16), nr, Padded(name));
    BlockTaken(fs.nSmap, fs.smapBits, fs.imapBits, fs.inodes, nr, s);
    NewInodeOk(fs.nSmap, fs.imapBits, fs.inodes, |fs.data|, nr, s);
    NewSlotCoherent(fs.table, fs.imapBits, fs.inodes, nr, p, x);
    NewSlotTables(fs.table, fs.fdt, nr, p, x);
    assert size' < LIMIT32 by {
      DirOkSize(AddName(fs.dir, FirstUnused(fs.dir, size / 16), nr, name), size');
    }
    ResizedCoherent(t, bits', inodes1, size');
    ResizedTables(t, fs.fdt, size');
    ResizedInodes(fs.nSmap, SetRange(fs.smapBits, 1 + FILE_SECTS * s, FILE_SECTS, true), bits', inodes1, |fs.data|, size');
  }

  lemma DirOkSize(dir: seq<Entry>, size: nat)
    requires DirOk(dir, size)
    ensures size <= 16 * 4095
  {}
}
