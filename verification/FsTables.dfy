/** Opening and closing files keeps the tables in memory in order. */
module FsTables {
  import opened Options
  import opened FsMaps
  import opened FsInodes
  import opened FsState
  import opened FsInvariant

  // ---------------------------------------------------------------- get_inode

  /** A request for inode num found slot p and left the table t. */
  ghost predicate Got(table: seq<Slot>, inodes: seq<Inode>, num: nat, t: seq<Slot>, p: nat)
    requires 0 < num <= |inodes|
  {
    && |t| == |table| && p < |table| && t == table[p := t[p]]
    && (if table[p].cnt > 0 then table[p].num == num && t[p] == table[p].(cnt := table[p].cnt + 1)
        else t[p] == Slot(1, num, inodes[num - 1]) && forall q | 0 <= q < |table| :: !(table[q].cnt > 0 && table[q].num == num))
  }

  lemma GetGot(table: seq<Slot>, inodes: seq<Inode>, num: nat)
    requires 0 < num <= |inodes| && Get(table, inodes, num).1.At?
    ensures Got(table, inodes, num, Get(table, inodes, num).0, Get(table, inodes, num).1.p)
  {}

  lemma GotCoherent(table: seq<Slot>, bits: seq<bool>, inodes: seq<Inode>, num: nat, t: seq<Slot>, p: nat)
    requires Coherent(table, bits, inodes) && 0 < num < |bits| && num <= |inodes| && bits[num]
    requires Got(table, inodes, num, t, p)
    ensures Coherent(t, bits, inodes) && t[ROOT_SLOT].ino == table[ROOT_SLOT].ino
    ensures t[p].num == num && t[p].ino == inodes[num - 1]
    ensures p == ROOT_SLOT ==> num == ROOT_INODE
  {
    forall q | 0 <= q < |t| ensures SlotOk(t[q], bits, inodes) {
      assert SlotOk(table[q], bits, inodes);
    }
  }

  lemma GotTables(table: seq<Slot>, inodes: seq<Inode>, num: nat, t: seq<Slot>, p: nat, fdt: seq<Desc>)
    requires 0 < num <= |inodes| && Got(table, inodes, num, t, p)
    requires Counted(table, fdt) && DescsOk(table, fdt)
    ensures Counted(t, fdt) && DescsOk(t, fdt) && References(fdt, p) < t[p].cnt
  {
    hide Refs;
    assert References(fdt, p) <= table[p].cnt;
    forall q | 0 <= q < |t| ensures References(fdt, q) <= t[q].cnt {
      assert References(fdt, q) <= table[q].cnt;
    }
    forall d | 0 <= d < |fdt| ensures DescOk(fdt[d], t) {
      assert DescOk(fdt[d], table);
    }
  }

  // ---------------------------------------------------------------- descriptors

  lemma {:induction false} RefsUpdate(fdt: seq<Desc>, d: nat, x: Desc, p: nat)
    requires d < |fdt|
    ensures Refs(fdt[d := x], p) == Refs(fdt, p) + (if Refers(x, p) then 1 else 0) - (if Refers(fdt[d], p) then 1 else 0)
  {
    var n := |fdt| - 1;
    var fdt' := fdt[d := x];
    if d < n {
      assert fdt'[..n] == fdt[..n][d := x];
      RefsUpdate(fdt[..n], d, x, p);
    } else {
      assert fdt'[..n] == fdt[..n];
    }
  }

  lemma {:induction false} RefsPositive(fdt: seq<Desc>, d: nat, p: nat)
    requires d < |fdt| && Refers(fdt[d], p)
    ensures Refs(fdt, p) > 0
  {
    if d < |fdt| - 1 {
      RefsPositive(fdt[..|fdt| - 1], d, p);
    }
  }

  /** A free descriptor is made to refer to a slot that has a reference to spare. */
  lemma AttachTables(table: seq<Slot>, fdt: seq<Desc>, d: nat, mode: nat, p: nat)
    requires Counted(table, fdt) && DescsOk(table, fdt) && d < |fdt| && fdt[d].slot.None?
    requires p < |table| && References(fdt, p) < table[p].cnt
    ensures var fdt' := fdt[d := Desc(mode, 0, Some(p))]; Counted(table, fdt') && DescsOk(table, fdt')
  {
    hide Refs;
    var x := Desc(mode, 0, Some(p));
    var fdt' := fdt[d := x];
    forall q | 0 <= q < |table| ensures References(fdt', q) <= table[q].cnt {
      RefsUpdate(fdt, d, x, q);
      assert References(fdt, q) <= table[q].cnt;
    }
  }

  lemma AttachFiles(filp: seq<seq<Option<nat>>>, fdt: seq<Desc>, q: nat, fd: nat, d: nat, x: Desc)
    requires FilesOk(filp, fdt) && q < |filp| && fd < NR_FILES && filp[q][fd].None?
    requires d < |fdt| && fdt[d].slot.None? && x.slot.Some?
    ensures FilesOk(filp[q := filp[q][fd := Some(d)]], fdt[d := x])
  {
    var filp', fdt' := filp[q := filp[q][fd := Some(d)]], fdt[d := x];
    forall q1: nat, fd1: nat, d1: nat | Holds(filp', q1, fd1, d1)
      ensures d1 < |fdt'| && fdt'[d1].slot.Some? && (d1 == d <==> q1 == q && fd1 == fd)
    {
      assert (q1 == q && fd1 == fd) || Holds(filp, q1, fd1, d1);
    }
    forall q1: nat, fd1: nat, q2: nat, fd2: nat, d1: nat | Holds(filp', q1, fd1, d1) && Holds(filp', q2, fd2, d1)
      ensures q1 == q2 && fd1 == fd2
    {
      if d1 != d {
        assert Holds(filp, q1, fd1, d1) && Holds(filp, q2, fd2, d1);
      }
    }
  }

  /** A descriptor is freed together with one reference to its slot. */
  lemma CloseTables(table: seq<Slot>, fdt: seq<Desc>, d: nat, p: nat)
    requires Counted(table, fdt) && DescsOk(table, fdt) && d < |fdt| && fdt[d].slot == Some(p) && p < |table|
    ensures References(fdt, p) > (if p == ROOT_SLOT then 1 else 0) && table[p].cnt > 0
    ensures var t, fdt' := table[p := table[p].(cnt := table[p].cnt - 1)], fdt[d := fdt[d].(slot := None)];
            Counted(t, fdt') && DescsOk(t, fdt')
  {
    hide Refs;
    RefsPositive(fdt, d, p);
    assert References(fdt, p) <= table[p].cnt;
    var x := fdt[d].(slot := None);
    var t, fdt' := table[p := table[p].(cnt := table[p].cnt - 1)], fdt[d := x];
    forall q | 0 <= q < |t| ensures References(fdt', q) <= t[q].cnt {
      RefsUpdate(fdt, d, x, q);
      assert References(fdt, q) <= table[q].cnt;
    }
    forall e | 0 <= e < |fdt'| ensures DescOk(fdt'[e], t) {
      if e != d {
        assert DescOk(fdt[e], table);
        if fdt[e].slot == Some(p) {
          assert References(fdt', p) <= t[p].cnt;
          RefsPositive(fdt', e, p);
        }
      }
    }
  }

  lemma CloseFiles(filp: seq<seq<Option<nat>>>, fdt: seq<Desc>, q: nat, fd: nat, d: nat)
    requires FilesOk(filp, fdt) && Holds(filp, q, fd, d)
    ensures FilesOk(filp[q := filp[q][fd := None]], fdt[d := fdt[d].(slot := None)])
  {
    var filp', fdt' := filp[q := filp[q][fd := None]], fdt[d := fdt[d].(slot := None)];
    forall q1: nat, fd1: nat, d1: nat | Holds(filp', q1, fd1, d1)
      ensures Holds(filp, q1, fd1, d1) && d1 != d
    {
      assert Holds(filp, q1, fd1, d1);
      assert q1 != q || fd1 != fd;
    }
  }

  lemma CloseCoherent(table: seq<Slot>, bits: seq<bool>, inodes: seq<Inode>, p: nat, c: nat)
    requires Coherent(table, bits, inodes) && p < |table| && table[p].cnt > 0 && (p == ROOT_SLOT ==> c > 0)
    ensures Coherent(table[p := table[p].(cnt := c)], bits, inodes)
  {
    var t := table[p := table[p].(cnt := c)];
    forall q | 0 <= q < |t| ensures SlotOk(t[q], bits, inodes) {
      assert SlotOk(table[q], bits, inodes);
    }
  }

  /** Closing a file keeps the invariant. */
  lemma CloseInv(fs: Fs, caller: nat, fd: nat)
    requires Inv(fs) && IsOpen(fs, caller, fd)
    ensures Inv(CloseFile(fs, caller, fd))
  {
    hide Refs, DirOk, InodeMapExact, InodesOk, ExtentsDisjoint, SectorMapExact, Counted, DescsOk, FilesOk, Coherent, References;
    var d := fs.filp[caller][fd].value;
    var p := fs.fdt[d].slot.value;
    CloseTables(fs.table, fs.fdt, d, p);
    assert p == ROOT_SLOT ==> fs.table[p].cnt > 1 by {
      assert Counted(fs.table, fs.fdt);
      CountedAt(fs.table, fs.fdt, p);
    }
    assert Holds(fs.filp, caller, fd, d);
    CloseFiles(fs.filp, fs.fdt, caller, fd, d);
    CloseCoherent(fs.table, fs.imapBits, fs.inodes, p, fs.table[p].cnt - 1);
    CoherentSize(fs.table, fs.imapBits, fs.inodes);
  }

  lemma CountedAt(table: seq<Slot>, fdt: seq<Desc>, p: nat)
    requires Counted(table, fdt) && p < |table|
    ensures References(fdt, p) <= table[p].cnt
  {}

  lemma CoherentSize(table: seq<Slot>, bits: seq<bool>, inodes: seq<Inode>)
    requires Coherent(table, bits, inodes)
    ensures |table| == NR_INODE && table[ROOT_SLOT].cnt > 0 && table[ROOT_SLOT].num == ROOT_INODE
  {}

  /** Opening a file that exists keeps the invariant. */
  lemma AttachInv(fs: Fs, caller: nat, fd: nat, d: nat, mode: nat, p: nat)
    requires Inv(fs) && caller < |fs.filp| && fd < NR_FILES && d < NR_FILE_DESC
    requires |fs.filp[caller]| == NR_FILES && |fs.fdt| == NR_FILE_DESC
    requires fs.filp[caller][fd].None? && fs.fdt[d].slot.None? && p < |fs.table| && References(fs.fdt, p) < fs.table[p].cnt
    ensures Inv(Attach(fs, caller, fd, d, mode, p))
  {
    hide Refs, DirOk, InodeMapExact, InodesOk, ExtentsDisjoint, SectorMapExact, Counted, DescsOk, FilesOk, Coherent, References;
    AttachTables(fs.table, fs.fdt, d, mode, p);
    AttachFiles(fs.filp, fs.fdt, caller, fd, d, Desc(mode, 0, Some(p)));
  }

  /** Having an inode in the table once more keeps the invariant. */
  lemma GetInv(fs: Fs, num: nat)
    requires Inv(fs) && Shape(fs) && 0 < num < MAP_BITS && fs.imapBits[num]
    requires Get(fs.table, fs.inodes, num).1.At?
    ensures var g := Get(fs.table, fs.inodes, num);
            && Inv(fs.(table := g.0)) && References(fs.fdt, g.1.p) < g.0[g.1.p].cnt
            && g.0[g.1.p].num == num && g.0[g.1.p].ino == fs.inodes[num - 1] && DirSize(g.0) == DirSize(fs.table)
            && (g.1.p == ROOT_SLOT ==> num == ROOT_INODE)
  {
    hide Refs, DirOk, InodeMapExact, InodesOk, ExtentsDisjoint, SectorMapExact, Counted, DescsOk, FilesOk, Coherent, References, Get;
    var g := Get(fs.table, fs.inodes, num);
    GetGot(fs.table, fs.inodes, num);
    GotCoherent(fs.table, fs.imapBits, fs.inodes, num, g.0, g.1.p);
    GotTables(fs.table, fs.inodes, num, g.0, g.1.p, fs.fdt);
  }
}
