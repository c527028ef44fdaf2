/** Removing a file keeps the invariant. */
module FsRemove {
  import opened FsMaps
  import opened FsInodes
  import opened FsDirectory
  import opened FsEntries
  import opened FsState
  import opened FsInvariant
  import opened FsTables
  import opened FsCreate

  // ---------------------------------------------------------------- the size of the directory

  /** The used ones of the first n entries come before the unused ones. */
  ghost predicate Compact(dir: seq<Entry>, n: nat)
    requires n <= |dir|
  {
    forall i, j | 0 <= i < j < n :: dir[j].nr != 0 ==> dir[i].nr != 0
  }

  lemma {:induction false} LiveBelowUnused(dir: seq<Entry>, c: nat, n: nat)
    requires c <= n <= |dir| && forall i | c <= i < n :: dir[i].nr == 0
    ensures LiveBelow(dir, n) == LiveBelow(dir, c)
  {
    if c < n {
      LiveBelowUnused(dir, c, n - 1);
    }
  }

  lemma {:induction false} LiveBelowUsed(dir: seq<Entry>, n: nat)
    requires n <= |dir|
    ensures LiveBelow(dir, n) == n <==> forall i | 0 <= i < n :: dir[i].nr != 0
  {
    if n > 0 {
      LiveBelowUsed(dir, n - 1);
    }
  }

  /** When the last entry of the directory is removed, the new size leaves no used entry out
      if and only if the used ones before it come before the unused ones. */
  lemma ShrinkLosesNothing(dir: seq<Entry>, size: nat, e: nat)
    requires e < |dir| && e + 1 == size / 16
    ensures (forall i | ShrunkSize(dir, size, e) / 16 <= i < e :: dir[i].nr == 0) <==> Compact(dir, e)
  {
    hide LiveBelow, FirstUnused;
    var n := LiveBelow(dir, e);
    assert ShrunkSize(dir, size, e) / 16 == n;
    if forall i | n <= i < e :: dir[i].nr == 0 {
      LiveBelowUnused(dir, n, e);
      LiveBelowUsed(dir, n);
    }
    if Compact(dir, e) {
      var c := FirstUnused(dir, e);
      LiveBelowUnused(dir, c, e);
      LiveBelowUsed(dir, c);
    }
  }

  // ---------------------------------------------------------------- the directory

  lemma NameRemovedDirOk(dir: seq<Entry>, size: nat, e: nat)
    requires DirOk(dir, size) && e < size / 16 && (e + 1 == size / 16 ==> Compact(dir, e))
    ensures DirOk(dir[e := NO_ENTRY], ShrunkSize(dir, size, e)) && ShrunkSize(dir, size, e) <= size
  {
    hide LiveBelow, Compact;
    if e + 1 == size / 16 {
      ShrinkLosesNothing(dir, size, e);
      var n := ShrunkSize(dir, size, e) / 16;
      assert ShrunkSize(dir, size, e) == 16 * n && n <= e;
    }
  }

  lemma NameRemovedMap(bits: seq<bool>, dir: seq<Entry>, e: nat, nr: nat)
    requires InodeMapExact(bits, dir) && Distinct(dir) && e < |dir| && dir[e].nr == nr && 0 < nr < MAP_BITS
    ensures InodeMapExact(bits[nr := false], dir[e := NO_ENTRY])
  {
    var bits', dir' := bits[nr := false], dir[e := NO_ENTRY];
    forall i | 1 <= i < MAP_BITS ensures bits'[i] <==> InDir(dir', i) {
      if a :| 0 <= a < |dir| && dir[a].nr == i && i != nr {
        assert dir'[a].nr == i;
      }
      if a :| 0 <= a < |dir'| && dir'[a].nr == i {
        assert dir[a].nr == i && a != e;
        assert a < e || e < a;
      }
    }
  }

  // ---------------------------------------------------------------- inodes and the sector map

  lemma OwnsLess(nSmap: nat, bits: seq<bool>, inodes: seq<Inode>, nr: nat)
    requires |bits| == MAP_BITS && |inodes| == NR_INODES && 1 <= nr < MAP_BITS
    ensures var bits', inodes' := bits[nr := false], inodes[nr - 1 := NO_FILE];
            forall i: nat, s: nat :: Owns(nSmap, bits', inodes', i, s) <==> Owns(nSmap, bits, inodes, i, s) && i != nr
  {}

  /** The block of a removed file is free again. */
  lemma BlockFreed(nSmap: nat, smapBits: seq<bool>, bits: seq<bool>, inodes: seq<Inode>, nr: nat, s: nat)
    requires Owns(nSmap, bits, inodes, nr, s)
    requires ExtentsDisjoint(nSmap, bits, inodes) && SectorMapExact(nSmap, smapBits, bits, inodes)
    ensures var bits', inodes' := bits[nr := false], inodes[nr - 1 := NO_FILE];
            && ExtentsDisjoint(nSmap, bits', inodes')
            && SectorMapExact(nSmap, SetRange(smapBits, 1 + FILE_SECTS * s, FILE_SECTS, false), bits', inodes')
  {
    OwnsLess(nSmap, bits, inodes, nr);
    hide Owns, SetRange;
    var bits', inodes' := bits[nr := false], inodes[nr - 1 := NO_FILE];
    var map' := SetRange(smapBits, 1 + FILE_SECTS * s, FILE_SECTS, false);
    forall s': nat ensures Taken(nSmap, bits', inodes', s') <==> Taken(nSmap, bits, inodes, s') && s' != s {
      if s' != s {
        if i: nat :| Owns(nSmap, bits, inodes, i, s') {
          NoSecondBlock(nSmap, bits, inodes, nr, s, s');
          assert Owns(nSmap, bits', inodes', i, s');
        }
      }
    }
    hide Taken;
    forall b | 1 <= b < |map'| ensures map'[b] <==> Taken(nSmap, bits', inodes', (b - 1) / FILE_SECTS) {
      assert smapBits[b] <==> Taken(nSmap, bits, inodes, (b - 1) / FILE_SECTS);
      assert 1 + FILE_SECTS * s <= b < 1 + FILE_SECTS * s + FILE_SECTS <==> (b - 1) / FILE_SECTS == s;
    }
  }

  lemma NoSecondBlock(nSmap: nat, bits: seq<bool>, inodes: seq<Inode>, i: nat, s: nat, s': nat)
    requires Owns(nSmap, bits, inodes, i, s) && s' != s
    ensures !Owns(nSmap, bits, inodes, i, s')
  {}

  /** The extent of a regular file is one block, and not that of the directory. */
  lemma BlockOf(nSmap: nat, bits: seq<bool>, inodes: seq<Inode>, dataSize: nat, nr: nat) returns (s: nat)
    requires InodesOk(nSmap, bits, inodes, dataSize) && 1 <= nr < MAP_BITS && bits[nr] && inodes[nr - 1].mode == I_REGULAR
    ensures 0 < s < Blocks(nSmap) && Owns(nSmap, bits, inodes, nr, s)
    ensures ExtentBit(nSmap, inodes[nr - 1]) == 1 + FILE_SECTS * s && inodes[nr - 1].nr == FILE_SECTS
    ensures Base(nSmap, inodes[nr - 1]) == FILE_BYTES * (s - 1)
  {
    assert InodeOk(nSmap, nr, inodes[nr - 1], dataSize);
    s := (inodes[nr - 1].start - FirstSect(nSmap)) / FILE_SECTS;
  }

  // ---------------------------------------------------------------- the inode table

  lemma SlotReleased(table: seq<Slot>, bits: seq<bool>, inodes: seq<Inode>, nr: nat, p: nat)
    requires Coherent(table, bits, inodes) && |bits| == MAP_BITS && |inodes| == NR_INODES
    requires 1 < nr < MAP_BITS && p < |table| && table[p].cnt > 0 && table[p].num == nr
    ensures Coherent(table[p := Slot(0, nr, NO_FILE)], bits[nr := false], inodes[nr - 1 := NO_FILE]) && p != ROOT_SLOT
  {
    var t, bits', inodes' := table[p := Slot(0, nr, NO_FILE)], bits[nr := false], inodes[nr - 1 := NO_FILE];
    forall q | 0 <= q < |t| ensures SlotOk(t[q], bits', inodes') {
      assert SlotOk(table[q], bits, inodes);
      assert q < p || q == p || p < q;
    }
  }

  lemma ReleasedTables(table: seq<Slot>, fdt: seq<Desc>, nr: nat, p: nat)
    requires Counted(table, fdt) && DescsOk(table, fdt) && p < |table| && References(fdt, p) == 0
    ensures var t := table[p := Slot(0, nr, NO_FILE)]; Counted(t, fdt) && DescsOk(t, fdt)
  {
    hide Refs;
    var t := table[p := Slot(0, nr, NO_FILE)];
    forall q | 0 <= q < |t| ensures References(fdt, q) <= t[q].cnt {
      assert References(fdt, q) <= table[q].cnt;
    }
    forall d | 0 <= d < |fdt| ensures DescOk(fdt[d], t) {
      assert DescOk(fdt[d], table);
      if Refers(fdt[d], p) {
        RefsPositive(fdt, d, p);
        assert false;
      }
    }
  }

  // ---------------------------------------------------------------- do_unlink

  /** An inode in use other than those of the directory has an entry. */
  lemma HasEntry(fs: Fs, nr: nat)
    requires Inv(fs) && Shape(fs) && 0 < nr < MAP_BITS && fs.imapBits[nr]
    ensures EntryOf(fs, nr) < DirSize(fs.table) / 16
  {
    var e :| 0 <= e < |fs.dir| && fs.dir[e].nr == nr;
    assert EmptyFrom(fs.dir, DirSize(fs.table) / 16);
    assert e < DirSize(fs.table) / 16;
  }

  /** The file with inode nr, which is in slot p with one reference that is not a
      descriptor's, can be removed. */
  ghost predicate CanRemove(fs: Fs, nr: nat, p: nat)
    requires Shape(fs)
  {
    && 1 < nr < |fs.imapBits| && fs.imapBits[nr] && fs.inodes[nr - 1].mode == I_REGULAR
    && p < |fs.table| && fs.table[p].cnt == 1 && fs.table[p].num == nr && References(fs.fdt, p) == 0
    && var e := EntryOf(fs, nr); e + 1 == DirSize(fs.table) / 16 ==> Compact(fs.dir, e)
  }

  lemma CanRemoveMapped(fs: Fs, nr: nat, p: nat)
    requires Inv(fs) && Shape(fs) && CanRemove(fs, nr, p)
    ensures Mapped(fs, fs.table, p) && EntryOf(fs, nr) < DirSize(fs.table) / 16 && p != ROOT_SLOT
    ensures fs.table[p].ino == fs.inodes[nr - 1]
  {
    HasEntry(fs, nr);
    assert SlotOk(fs.table[p], fs.imapBits, fs.inodes);
    var s := BlockOf(fs.nSmap, fs.imapBits, fs.inodes, |fs.data|, nr);
  }

  /** Removing a file keeps the invariant. */
  lemma RemovedInv(fs: Fs, nr: nat, p: nat)
    requires Inv(fs) && Shape(fs) && CanRemove(fs, nr, p)
    requires Mapped(fs, fs.table, p) && EntryOf(fs, nr) < DirSize(fs.table) / 16
    ensures Inv(Unnamed(Released(fs, fs.table, nr, p), EntryOf(fs, nr)))
  {
    hide InodeMapExact, InodesOk, ExtentsDisjoint, SectorMapExact, Counted, DescsOk, FilesOk, Coherent, References, InodeOk;
    hide Compact, LiveBelow, FirstWith, SetRange, EmptyFrom, UnusedZero, UsedNamed, Distinct;
    RootFacts(fs);
    CanRemoveMapped(fs, nr, p);
    var size, e := DirSize(fs.table), EntryOf(fs, nr);
    var size' := ShrunkSize(fs.dir, size, e);
    var s := BlockOf(fs.nSmap, fs.imapBits, fs.inodes, |fs.data|, nr);
    var t, bits', inodes1 := fs.table[p := Slot(0, nr, NO_FILE)], fs.imapBits[nr := false], fs.inodes[nr - 1 := NO_FILE];
    var map' := SetRange(fs.smapBits, 1 + FILE_SECTS * s, FILE_SECTS, false);
    NameRemovedDirOk(fs.dir, size, e);
    NameRemovedMap(fs.imapBits, fs.dir, e, nr);
    BlockFreed(fs.nSmap, fs.smapBits, fs.imapBits, fs.inodes, nr, s);
    InodeGone(fs.nSmap, fs.imapBits, fs.inodes, |fs.data|, nr);
    SlotReleased(fs.table, fs.imapBits, fs.inodes, nr, p);
    ReleasedTables(fs.table, fs.fdt, nr, p);
    ResizedCoherent(t, bits', inodes1, size');
    ResizedTables(t, fs.fdt, size');
    ResizedInodes(fs.nSmap, map', bits', inodes1, |fs.data|, size');
    assert size' == size ==> Resized(t, size') == t;
  }

  lemma InodeGone(nSmap: nat, bits: seq<bool>, inodes: seq<Inode>, dataSize: nat, nr: nat)
    requires InodesOk(nSmap, bits, inodes, dataSize) && 1 < nr < MAP_BITS
    ensures InodesOk(nSmap, bits[nr := false], inodes[nr - 1 := NO_FILE], dataSize)
  {
    hide InodeOk;
  }
}
