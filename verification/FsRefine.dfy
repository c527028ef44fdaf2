/** Every request does to every name what ViewAfter says; so files do not interfere, and what
    is written is what is read later. */
module FsRefine {
  import opened FsBits
  import opened FsMaps
  import opened FsInodes
  import opened FsDirectory
  import opened FsEntries
  import opened FsTransfer
  import opened FsState
  import opened FsInvariant
  import opened FsCreate
  import opened FsRemove
  import opened FsRuns
  import opened FsStore

  // ---------------------------------------------------------------- requests that change the tables only

  /** The disk is the same, and so is the directory's inode in memory. */
  ghost predicate SameDisk(fs: Fs, fs': Fs)
    requires Shape(fs) && Shape(fs')
  {
    && fs'.nSmap == fs.nSmap && fs'.imapBits == fs.imapBits && fs'.smapBits == fs.smapBits
    && fs'.inodes == fs.inodes && fs'.dir == fs.dir && fs'.data == fs.data
    && DirSize(fs'.table) == DirSize(fs.table) && fs'.table[ROOT_SLOT].num == fs.table[ROOT_SLOT].num
  }

  lemma SameDiskView(fs: Fs, fs': Fs, name: seq<byte>)
    requires Inv(fs) && Shape(fs) && Inv(fs') && Shape(fs') && SameDisk(fs, fs') && GoodName(name)
    ensures ViewOf(fs', name) == ViewOf(fs, name)
  {
    hide Inv;
    assert Lookup(fs', name) == Lookup(fs, name);
    hide Lookup;
    ViewSame(fs, fs', name);
  }

  // ---------------------------------------------------------------- reading and writing bytes

  /** Contents after some of the bytes, or bytes behind the end, have been written. */
  lemma WrittenContents(data: seq<byte>, a: nat, size: nat, pos: nat, b: seq<byte>)
    requires pos <= size && (size > 0 ==> a + size <= |data|) && (|b| > 0 ==> a + pos + |b| <= |data|)
    ensures var size' := if pos + |b| > size then pos + |b| else size;
            && (size' > 0 ==> a + size' <= |data|)
            && Cut(Put(data, a + pos, b), a, size') == Patched(Cut(data, a, size), pos, b)
  {
    hide Put, Cut, Patched;
    var size' := if pos + |b| > size then pos + |b| else size;
    PutAt(data, a + pos, b);
    CutAt(Put(data, a + pos, b), a, size');
    CutAt(data, a, size);
    PatchedAt(Cut(data, a, size), pos, b);
    var y, z := Cut(Put(data, a + pos, b), a, size'), Patched(Cut(data, a, size), pos, b);
    assert |y| == |z|;
    forall i | 0 <= i < |y| ensures y[i] == z[i] {}
  }

  lemma PutAt(f: seq<byte>, a: nat, b: seq<byte>)
    requires b == [] || a + |b| <= |f|
    ensures forall i | 0 <= i < |f| :: Put(f, a, b)[i] == if a <= i < a + |b| then b[i - a] else f[i]
  {}

  lemma CutAt(f: seq<byte>, a: nat, n: nat)
    requires n == 0 || a + n <= |f|
    ensures forall i | 0 <= i < n :: Cut(f, a, n)[i] == f[a + i]
  {}

  lemma PatchedAt(f: seq<byte>, pos: nat, b: seq<byte>)
    requires pos <= |f|
    ensures |Patched(f, pos, b)| == if pos + |b| > |f| then pos + |b| else |f|
    ensures forall i | 0 <= i < |Patched(f, pos, b)| :: Patched(f, pos, b)[i] == if pos <= i < pos + |b| then b[i - pos] else f[i]
  {}

  /** Bytes elsewhere are the same. */
  lemma OtherContents(data: seq<byte>, a: nat, b: seq<byte>, c: nat, n: nat)
    requires (|b| > 0 ==> a + |b| <= |data|) && (n > 0 ==> c + n <= |data|) && (a + |b| <= c || c + n <= a)
    ensures Cut(Put(data, a, b), c, n) == Cut(data, c, n)
  {}

  /** The extents of two files do not meet. */
  lemma BasesApart(fs: Fs, i: nat, j: nat)
    requires Inv(fs) && Shape(fs) && 0 < i < MAP_BITS && 0 < j < MAP_BITS && i != j && fs.imapBits[i] && fs.imapBits[j]
    requires fs.inodes[i - 1].mode == I_REGULAR && fs.inodes[j - 1].mode == I_REGULAR
    ensures Base(fs.nSmap, fs.inodes[i - 1]) >= 0 && Base(fs.nSmap, fs.inodes[j - 1]) >= 0
    ensures || Base(fs.nSmap, fs.inodes[i - 1]) + FILE_BYTES <= Base(fs.nSmap, fs.inodes[j - 1])
            || Base(fs.nSmap, fs.inodes[j - 1]) + FILE_BYTES <= Base(fs.nSmap, fs.inodes[i - 1])
  {
    var s := BlockOf(fs.nSmap, fs.imapBits, fs.inodes, |fs.data|, i);
    var s' := BlockOf(fs.nSmap, fs.imapBits, fs.inodes, |fs.data|, j);
    hide Owns;
    assert s != s';
  }

  /** What Advance changes: the size of one inode, and that only upwards. */
  lemma AdvanceFacts(fs: Fs, caller: nat, fd: nat, n: nat)
    requires Inv(fs) && Shape(fs) && ValidFd(fs, caller, fd) && IsOpen(fs, caller, fd) && InExtent(fs, caller, fd, n)
    requires 0 < SlotOf(fs, caller, fd).num < MAP_BITS
    ensures var fs', x, i, pos := Advance(fs, caller, fd, n), SlotOf(fs, caller, fd).ino, SlotOf(fs, caller, fd).num, DescOf(fs, caller, fd).pos;
            && fs'.nSmap == fs.nSmap && fs'.dir == fs.dir && fs'.data == fs.data && Inv(fs') && Shape(fs')
            && fs'.table[ROOT_SLOT] == fs.table[ROOT_SLOT] && pos <= x.size && fs.inodes[i - 1] == x && fs.imapBits[i]
            && fs'.inodes == fs.inodes[i - 1 := x.(size := if pos + n > x.size then pos + n else x.size)]
  {
    OpenFacts(fs, caller, fd);
    RootFacts(fs);
    AdvanceInv(fs, caller, fd, n);
    InvShape(Advance(fs, caller, fd, n));
    PosWithin(fs.table, fs.fdt, fs.filp[caller][fd].value);
    hide Inv, InodeOk;
    var x := SlotOf(fs, caller, fd).ino;
    assert x.(size := x.size) == x;
  }

  lemma ReadDenied(fs: Fs, caller: nat, fd: nat, len: nat)
    requires Shape(fs) && IsOpen(fs, caller, fd) && 0 < SlotOf(fs, caller, fd).num <= NR_INODES
    requires !ReadsAndWrites(DescOf(fs, caller, fd).mode)
    ensures ReadFile(fs, caller, fd, len) == (fs, Failed)
  {}

  /** A read leaves what every name stands for as it is, unless it goes past the end of the file:
      then the file grows by what was read there. */
  lemma ReadView(fs: Fs, caller: nat, fd: nat, len: nat, name: seq<byte>)
    requires Inv(fs) && Shape(fs) && ValidFd(fs, caller, fd) && IsOpen(fs, caller, fd) && GoodName(name)
    requires 0 < SlotOf(fs, caller, fd).num < MAP_BITS
    requires ReadsAndWrites(DescOf(fs, caller, fd).mode) && InExtent(fs, caller, fd, ReadCount(fs, caller, fd, len))
    requires Inv(ReadFile(fs, caller, fd, len).0) && Shape(ReadFile(fs, caller, fd, len).0)
    ensures var fs', x, pos := ReadFile(fs, caller, fd, len).0, SlotOf(fs, caller, fd), DescOf(fs, caller, fd).pos;
            if Lookup(fs, name) == x.num && pos + len > x.ino.size then
              GrownView(ViewOf(fs, name), ViewOf(fs', name), pos + ReadCount(fs, caller, fd, len))
            else ViewOf(fs', name) == ViewOf(fs, name)
  {
    hide Inv, InodeOk, Transferred, Advance, Lookup, ViewOf, GrownView;
    OpenPos(fs, caller, fd);
    var x, pos, n := SlotOf(fs, caller, fd), DescOf(fs, caller, fd).pos, ReadCount(fs, caller, fd, len);
    AdvanceFacts(fs, caller, fd, n);
    TransferredWithin(pos, len, x.ino.size, BUF_SECTS);
    assert ReadFile(fs, caller, fd, len).0 == Advance(fs, caller, fd, n);
    hide ReadFile, ReadCount;
    SizeChanged(fs, Advance(fs, caller, fd, n), x.num, if pos + n > x.ino.size then pos + n else x.ino.size, name);
  }

  /** One inode has another size, not smaller than before. */
  lemma SizeChanged(fs: Fs, fs': Fs, i: nat, size: nat, name: seq<byte>)
    requires Inv(fs) && Shape(fs) && Inv(fs') && Shape(fs') && GoodName(name) && 0 < i < MAP_BITS
    requires fs'.nSmap == fs.nSmap && fs'.dir == fs.dir && fs'.data == fs.data && fs'.table[ROOT_SLOT] == fs.table[ROOT_SLOT]
    requires fs.inodes[i - 1].mode == I_REGULAR && fs.inodes[i - 1].size <= size
    requires fs'.inodes == fs.inodes[i - 1 := fs.inodes[i - 1].(size := size)]
    ensures if Lookup(fs, name) == i && size > fs.inodes[i - 1].size then GrownView(ViewOf(fs, name), ViewOf(fs', name), size)
            else ViewOf(fs', name) == ViewOf(fs, name)
  {
    hide Inv, InodeOk;
    assert Lookup(fs', name) == Lookup(fs, name);
    hide Lookup, ViewOf, GrownView, IsContents;
    LookupInUse(fs, name);
    if Lookup(fs, name) == i && size > fs.inodes[i - 1].size {
      ViewIs(fs, name);
      ViewIs(fs', name);
      GrownContents(fs, fs', i, size, ViewOf(fs, name), ViewOf(fs', name));
    } else {
      ViewSame(fs, fs', name);
    }
  }

  lemma GrownContents(fs: Fs, fs': Fs, i: nat, size: nat, v: View, v': View)
    requires IsContents(fs, i, v) && IsContents(fs', i, v') && fs'.nSmap == fs.nSmap && fs'.data == fs.data
    requires fs.inodes[i - 1].mode == I_REGULAR && fs.inodes[i - 1].size < size
    requires fs'.inodes[i - 1] == fs.inodes[i - 1].(size := size)
    ensures GrownView(v, v', size)
  {
    GrownWithin(fs', i);
    hide InodeOk, Cut;
    CutPrefix(fs.data, Base(fs.nSmap, fs.inodes[i - 1]), fs.inodes[i - 1].size, size);
  }

  lemma GrownWithin(fs: Fs, i: nat)
    requires 0 < i <= |fs.inodes| && InodeOk(fs.nSmap, i, fs.inodes[i - 1], |fs.data|)
    requires fs.inodes[i - 1].mode == I_REGULAR && fs.inodes[i - 1].size > 0
    ensures Base(fs.nSmap, fs.inodes[i - 1]) >= 0
    ensures Base(fs.nSmap, fs.inodes[i - 1]) + fs.inodes[i - 1].size <= |fs.data|
  {}

  /** Bytes have been added to the contents, n in all now. */
  ghost predicate GrownView(v: View, v': View, n: nat) {
    v.File? && v'.File? && v.bytes < v'.bytes && |v'.bytes| == n
  }

  lemma CutPrefix(f: seq<byte>, a: nat, k: nat, n: nat)
    requires k < n && a + n <= |f|
    ensures Cut(f, a, k) < Cut(f, a, n)
  {}

  /** What a read returns is what the name stands for, as far as that goes. */
  lemma ReadReply(fs: Fs, caller: nat, fd: nat, len: nat, v: View)
    requires Inv(fs) && Shape(fs) && ValidFd(fs, caller, fd) && IsOpen(fs, caller, fd)
    requires 0 < SlotOf(fs, caller, fd).num < MAP_BITS
    requires ReadsAndWrites(DescOf(fs, caller, fd).mode) && InExtent(fs, caller, fd, ReadCount(fs, caller, fd, len))
    requires IsContents(fs, SlotOf(fs, caller, fd).num, v)
    ensures var pos, reply := DescOf(fs, caller, fd).pos, ReadFile(fs, caller, fd, len).1;
            && v.File? && reply.Bytes? && pos <= |v.bytes|
            && Min(len, |v.bytes| - pos) <= |reply.bytes| <= len
            && forall i | 0 <= i < |reply.bytes| && pos + i < |v.bytes| :: reply.bytes[i] == v.bytes[pos + i]
  {
    hide Inv, Advance, Cut, Transferred;
    OpenFacts(fs, caller, fd);
    OpenPos(fs, caller, fd);
    var x, pos, n := SlotOf(fs, caller, fd).ino, DescOf(fs, caller, fd).pos, ReadCount(fs, caller, fd, len);
    TransferredEnough(pos, len, x.size, BUF_SECTS);
    CutAt(fs.data, Base(fs.nSmap, x) + pos, n);
    CutAt(fs.data, Base(fs.nSmap, x), x.size);
  }

  lemma OpenPos(fs: Fs, caller: nat, fd: nat)
    requires Inv(fs) && Shape(fs) && ValidFd(fs, caller, fd) && IsOpen(fs, caller, fd)
    ensures DescOf(fs, caller, fd).pos <= SlotOf(fs, caller, fd).ino.size
  {
    PosWithin(fs.table, fs.fdt, fs.filp[caller][fd].value);
  }

  /** What a write changes: the bytes in the file's extent, and the size of its inode. */
  ghost predicate WroteTo(fs: Fs, fs': Fs, i: nat, pos: nat, bytes: seq<byte>)
    requires Shape(fs) && Shape(fs')
  {
    && 0 < i < MAP_BITS && fs.imapBits[i] && fs'.imapBits == fs.imapBits && fs'.nSmap == fs.nSmap && fs'.dir == fs.dir
    && fs'.table[ROOT_SLOT] == fs.table[ROOT_SLOT]
    && var x := fs.inodes[i - 1];
    && x.mode == I_REGULAR && pos <= x.size && pos + |bytes| <= FILE_BYTES && 0 <= Base(fs.nSmap, x)
    && (|bytes| > 0 ==> Base(fs.nSmap, x) + pos + |bytes| <= |fs.data|)
    && fs'.data == Put(fs.data, Base(fs.nSmap, x) + pos, bytes)
    && fs'.inodes == fs.inodes[i - 1 := x.(size := if pos + |bytes| > x.size then pos + |bytes| else x.size)]
  }

  lemma WriteFacts(fs: Fs, caller: nat, fd: nat, bytes: seq<byte>)
    requires Inv(fs) && Shape(fs) && ValidFd(fs, caller, fd) && IsOpen(fs, caller, fd)
    requires 0 < SlotOf(fs, caller, fd).num < MAP_BITS
    requires ReadsAndWrites(DescOf(fs, caller, fd).mode) && InExtent(fs, caller, fd, |bytes|)
    ensures var fs' := WriteFile(fs, caller, fd, bytes).0;
            Shape(fs') && WroteTo(fs, fs', SlotOf(fs, caller, fd).num, DescOf(fs, caller, fd).pos, bytes)
  {
    hide Inv, InodeOk, Put;
    OpenFacts(fs, caller, fd);
    var a := Base(fs.nSmap, SlotOf(fs, caller, fd).ino) + DescOf(fs, caller, fd).pos;
    var fs1 := fs.(data := Put(fs.data, a, bytes));
    DataIrrelevant(fs, Put(fs.data, a, bytes));
    AdvanceFacts(fs1, caller, fd, |bytes|);
    assert WriteFile(fs, caller, fd, bytes).0 == Advance(fs1, caller, fd, |bytes|);
    AdvanceMap(fs1, caller, fd, |bytes|);
  }

  lemma AdvanceMap(fs: Fs, caller: nat, fd: nat, n: nat)
    requires Shape(fs) && IsOpen(fs, caller, fd) && 0 < SlotOf(fs, caller, fd).num <= NR_INODES
    ensures Advance(fs, caller, fd, n).imapBits == fs.imapBits
  {}

  lemma WriteView(fs: Fs, fs': Fs, i: nat, pos: nat, bytes: seq<byte>, name: seq<byte>)
    requires Inv(fs) && Shape(fs) && Inv(fs') && Shape(fs') && WroteTo(fs, fs', i, pos, bytes) && GoodName(name)
    ensures if Lookup(fs, name) == i then
              && ViewOf(fs, name).File? && pos <= |ViewOf(fs, name).bytes|
              && ViewOf(fs', name) == File(Patched(ViewOf(fs, name).bytes, pos, bytes))
            else ViewOf(fs', name) == ViewOf(fs, name)
  {
    hide Inv, InodeOk, Put, Cut, Patched, ViewOf, Contents;
    assert Lookup(fs', name) == Lookup(fs, name);
    hide Lookup;
    LookupInUse(fs, name);
    ViewIs(fs, name);
    ViewIs(fs', name);
    var nr := Lookup(fs, name);
    if nr == i {
      SameFileWritten(fs, fs', i, pos, bytes);
    } else if nr != 0 {
      OtherFile(fs, fs', i, pos, bytes, nr);
    }
  }

  /** v is the contents of inode nr. */
  ghost predicate IsContents(fs: Fs, nr: nat, v: View) {
    && 0 < nr < MAP_BITS && |fs.inodes| == NR_INODES && InodeOk(fs.nSmap, nr, fs.inodes[nr - 1], |fs.data|)
    && v == Contents(fs.nSmap, fs.data, fs.inodes[nr - 1])
  }

  /** The view of a name is the contents of its inode. */
  lemma ViewIs(fs: Fs, name: seq<byte>)
    requires Inv(fs) && Shape(fs) && GoodName(name)
    ensures if Lookup(fs, name) == 0 then ViewOf(fs, name) == Absent
            else IsContents(fs, Lookup(fs, name), ViewOf(fs, name))
  {
    LookupInUse(fs, name);
    hide Inv, Lookup, InodeOk, Contents;
    if Lookup(fs, name) != 0 {
      InUseOk(fs, Lookup(fs, name));
    }
  }

  lemma SameFileWritten(fs: Fs, fs': Fs, i: nat, pos: nat, bytes: seq<byte>)
    requires Inv(fs) && Shape(fs) && Inv(fs') && Shape(fs') && 0 < i < MAP_BITS && fs.imapBits[i] && fs'.imapBits[i]
    requires fs.inodes[i - 1].mode == I_REGULAR && 0 <= Base(fs.nSmap, fs.inodes[i - 1])
    requires |bytes| > 0 ==> Base(fs.nSmap, fs.inodes[i - 1]) + pos + |bytes| <= |fs.data|
    requires fs'.data == Put(fs.data, Base(fs.nSmap, fs.inodes[i - 1]) + pos, bytes) && fs'.nSmap == fs.nSmap
    requires var x := fs.inodes[i - 1];
             pos <= x.size && fs'.inodes[i - 1] == x.(size := if pos + |bytes| > x.size then pos + |bytes| else x.size)
    ensures InodeOk(fs.nSmap, i, fs.inodes[i - 1], |fs.data|) && InodeOk(fs'.nSmap, i, fs'.inodes[i - 1], |fs'.data|)
    ensures var v := Contents(fs.nSmap, fs.data, fs.inodes[i - 1]);
            && v.File? && pos <= |v.bytes|
            && Contents(fs'.nSmap, fs'.data, fs'.inodes[i - 1]) == File(Patched(v.bytes, pos, bytes))
  {
    InUseOk(fs, i);
    InUseOk(fs', i);
    hide Inv, Put, Cut, Patched;
    WrittenContents(fs.data, Base(fs.nSmap, fs.inodes[i - 1]), fs.inodes[i - 1].size, pos, bytes);
  }

  /** Writing within one file leaves the contents of another alone. */
  lemma OtherFile(fs: Fs, fs': Fs, i: nat, pos: nat, bytes: seq<byte>, j: nat)
    requires Inv(fs) && Shape(fs) && Inv(fs') && Shape(fs') && 0 < i < MAP_BITS && 0 < j < MAP_BITS && i != j
    requires fs.imapBits[i] && fs.imapBits[j] && fs.inodes[i - 1].mode == I_REGULAR && pos + |bytes| <= FILE_BYTES
    requires |bytes| > 0 ==> 0 <= Base(fs.nSmap, fs.inodes[i - 1]) && Base(fs.nSmap, fs.inodes[i - 1]) + pos + |bytes| <= |fs.data|
    requires 0 <= Base(fs.nSmap, fs.inodes[i - 1])
    requires fs'.data == Put(fs.data, Base(fs.nSmap, fs.inodes[i - 1]) + pos, bytes) && fs'.nSmap == fs.nSmap
    requires fs'.imapBits[j] && fs'.inodes[j - 1] == fs.inodes[j - 1]
    ensures InodeOk(fs.nSmap, j, fs.inodes[j - 1], |fs.data|) && InodeOk(fs'.nSmap, j, fs'.inodes[j - 1], |fs'.data|)
    ensures Contents(fs'.nSmap, fs'.data, fs'.inodes[j - 1]) == Contents(fs.nSmap, fs.data, fs.inodes[j - 1])
  {
    InUseOk(fs, j);
    InUseOk(fs', j);
    hide Inv, Put, Cut;
    var y := fs.inodes[j - 1];
    if y.mode == I_REGULAR {
      BasesApart(fs, i, j);
      OtherContents(fs.data, Base(fs.nSmap, fs.inodes[i - 1]) + pos, bytes, Base(fs.nSmap, y), y.size);
    }
  }

  // ---------------------------------------------------------------- making and removing a file

  /** A file is made, and nothing else is different. */
  lemma CreatedView(fs: Fs, name: seq<byte>, nr: nat, s: nat, p: nat, other: seq<byte>)
    requires Inv(fs) && Shape(fs) && CanCreate(fs, name, nr, s, p) && GoodName(name) && GoodName(other)
    requires 1 + FILE_SECTS * s + FILE_SECTS <= |fs.smapBits|
    ensures var fs' := Created(fs, fs.table, name, nr, 1 + FILE_SECTS * s, p);
            && Inv(fs') && Shape(fs')
            && ViewOf(fs', other) == if other == name then File([]) else ViewOf(fs, other)
  {
    hide InodesOk, ExtentsDisjoint, SectorMapExact, Counted, DescsOk, FilesOk, Coherent, InodeMapExact, Distinct, UnusedZero, UsedNamed;
    hide InodeOk, SetRange, GrownSize, Padded, AddName, FirstUnused, Taken, Unused;
    RootFacts(fs);
    CreatedInv(fs, name, nr, s, p);
    var fs' := Created(fs, fs.table, name, nr, 1 + FILE_SECTS * s, p);
    InvShape(fs');
    NewEntry(fs.dir, DirSize(fs.table), nr, name);
    var e := FirstUnused(fs.dir, DirSize(fs.table) / 16);
    CreatedDir(fs, fs', name, nr, e, other);
  }

  lemma CreatedDir(fs: Fs, fs': Fs, name: seq<byte>, nr: nat, e: nat, other: seq<byte>)
    requires Inv(fs) && Shape(fs) && Inv(fs') && Shape(fs') && GoodName(name) && GoodName(other) && 1 < nr < MAP_BITS
    requires e < |fs.dir| && fs.dir[e].nr == 0 && fs'.dir == fs.dir[e := Entry(nr, Padded(name))]
    requires !fs.imapBits[nr] && fs'.nSmap == fs.nSmap && fs'.data == fs.data
    requires fs'.inodes[nr - 1].mode == I_REGULAR && fs'.inodes[nr - 1].size == 0
    requires forall i | 0 <= i < NR_INODES && i != nr - 1 :: SameFile(fs.inodes[i], fs'.inodes[i])
    ensures ViewOf(fs', other) == if other == name then File([]) else ViewOf(fs, other)
  {
    hide Inv, Padded, Lookup, InodeOk;
    if other == name {
      assert Names(fs'.dir, e, name);
      LookupEntry(fs', name, e);
      ViewIs(fs', name);
    } else {
      DifferentNames(name, other);
      LookupSame(fs, fs', other, e, Entry(nr, Padded(name)));
      LookupInUse(fs, other);
      ViewSame(fs, fs', other);
    }
  }

  lemma DifferentNames(a: seq<byte>, b: seq<byte>)
    requires GoodName(a) && GoodName(b) && a != b
    ensures Padded(a) != Padded(b)
  {
    if Padded(a) == Padded(b) {
      PaddedInjective(a, b);
      assert false;
    }
  }

  /** The name of a removed file stands for nothing, and nothing else is different. */
  lemma RemovedView(fs: Fs, fs': Fs, name: seq<byte>, nr: nat, e: nat, other: seq<byte>)
    requires Inv(fs) && Shape(fs) && Inv(fs') && Shape(fs') && GoodName(name) && GoodName(other) && 1 < nr < MAP_BITS
    requires Lookup(fs, name) == nr && e < |fs.dir| && fs.dir[e].nr == nr && fs'.dir == fs.dir[e := NO_ENTRY]
    requires fs'.nSmap == fs.nSmap && fs'.data == fs.data
    requires forall i | 0 <= i < NR_INODES && i != nr - 1 :: SameFile(fs.inodes[i], fs'.inodes[i])
    ensures ViewOf(fs', other) == if other == name then Absent else ViewOf(fs, other)
  {
    hide InodesOk, ExtentsDisjoint, SectorMapExact, Counted, DescsOk, FilesOk, Coherent, InodeMapExact, UnusedZero, UsedNamed, EmptyFrom;
    hide Padded, Lookup, InodeOk;
    EntryOfName(fs, name, e);
    if other == name {
      forall a: nat ensures !Names(fs'.dir, a, name) {
        if a != e && a < |fs.dir| {
          assert a < e || e < a;
        }
      }
      LookupNone(fs', name);
      ViewIs(fs', name);
    } else {
      DifferentNames(name, other);
      LookupSame(fs, fs', other, e, NO_ENTRY);
      if Lookup(fs, other) == nr {
        LookupInjective(fs, name, other);
        assert false;
      }
      LookupInUse(fs, other);
      ViewSame(fs, fs', other);
    }
  }

  /** The entry of a name's inode has that name. */
  lemma EntryOfName(fs: Fs, name: seq<byte>, e: nat)
    requires Inv(fs) && Shape(fs) && GoodName(name) && e < |fs.dir| && fs.dir[e].nr == Lookup(fs, name) != 0
    ensures Names(fs.dir, e, name)
  {
    hide InodesOk, ExtentsDisjoint, SectorMapExact, Counted, DescsOk, FilesOk, Coherent, InodeMapExact, UnusedZero, UsedNamed, EmptyFrom;
    hide Padded, Lookup;
    LookupNone(fs, name);
    var a: nat :| Names(fs.dir, a, name);
    LookupEntry(fs, name, a);
    assert a < e || a == e || e < a;
  }
}
