/** What holds of every state that a run of requests leads to from a new file system. */
module FsFromMkfs {
  import opened FsBits
  import opened FsDirectory
  import opened FsInodes
  import opened FsMaps
  import opened FsState
  import opened FsInvariant
  import opened FsRuns
  import opened FsStore
  import opened FsReferences
  import opened FsMkfs

  /** Every run of requests from a new file system keeps the invariant. */
  lemma RunsFromMkfs(fs: Fs, rs: seq<Request>)
    requires IsNew(fs)
    ensures Inv(fs) && Shape(fs)
    ensures LegalRun(fs, rs) ==> Inv(Exec(fs, rs)) && Shape(Exec(fs, rs))
  {
    FreshInv(fs);
    hide Inv, Shape;
    if LegalRun(fs, rs) {
      ReachableInv(fs, rs);
    }
  }

  // ---------------------------------------------------------------- what there is at the start

  /** At the start the directory's inode has three entries and one block, each terminal has a device
      of its own, and nothing is open. */
  lemma NewInodes(fs: Fs)
    requires IsNew(fs)
    ensures fs.inodes[0] == Inode(I_DIRECTORY, 3 * 16, FirstSect(fs.nSmap), 2048)
    ensures fs.inodes[1] == Inode(I_CHAR_SPECIAL, 0, 0x400, 0) && fs.inodes[2] == Inode(I_CHAR_SPECIAL, 0, 0x401, 0)
    ensures forall q, f | 0 <= q < |fs.filp| && 0 <= f < NR_FILES :: fs.filp[q][f].None?
  {
    assert fs.inodes[1] == TtyInode(0) && fs.inodes[2] == TtyInode(1);
  }

  lemma NewEntries(fs: Fs)
    requires IsNew(fs)
    ensures fs.dir[0] == Entry(1, Padded([46])) && fs.dir[1] == Entry(2, Padded(TtyName(0))) && fs.dir[2] == Entry(3, Padded(TtyName(1)))
    ensures forall e | 3 <= e < |fs.dir| :: fs.dir[e].nr == 0
  {
    assert fs.dir[1] == TtyEntry(0) && fs.dir[2] == TtyEntry(1);
    hide Padded, TtyName;
  }

  /** The directory is there under the name ".", and the terminals under theirs; every other name
      stands for nothing. */
  lemma NewNames(fs: Fs, name: seq<byte>)
    requires IsNew(fs) && Inv(fs) && Shape(fs) && GoodName(name)
    ensures Lookup(fs, name) == if name == [46] then 1 else if name == TtyName(0) then 2 else if name == TtyName(1) then 3 else 0
  {
    NewEntries(fs);
    hide Inv, Lookup, Padded, TtyName, IsNew, Shape;
    LookupNone(fs, name);
    if e: nat :| Names(fs.dir, e, name) {
      LookupEntry(fs, name, e);
      assert e < 3;
      NameOfEntry(name, e);
    } else {
      assert !Names(fs.dir, 0, name) && !Names(fs.dir, 1, name) && !Names(fs.dir, 2, name);
    }
  }

  lemma NameOfEntry(name: seq<byte>, e: nat)
    requires GoodName(name) && e < 3 && Padded(name) == Padded(if e == 0 then [46] else TtyName(e - 1))
    ensures name == if e == 0 then [46] else TtyName(e - 1)
    ensures TtyName(0) != TtyName(1) && |TtyName(0)| == |TtyName(1)| == 8
  {
    PaddedInjective(name, if e == 0 then [46] else TtyName(e - 1));
  }

  // ---------------------------------------------------------------- exact counts

  /** At the start the counts are exact. */
  lemma NewExact(fs: Fs)
    requires IsNew(fs)
    ensures Exact(fs)
  {
    hide Refs;
    forall p | 0 <= p < |fs.table| ensures Spare(fs, p) == 0 {
      RefsExist(fs.fdt, p);
    }
  }

  /** No request of the run leaves a reference behind. */
  ghost predicate NeverLeaks(fs: Fs, rs: seq<Request>)
    requires Inv(fs) && Shape(fs) && LegalRun(fs, rs)
    decreases |rs|
  {
    rs == [] || Step(fs, rs[0]).1 == Panic ||
    (StepInv(fs, rs[0]);
     (forall p: nat | p < NR_INODE :: !Leaks(fs, rs[0], p)) && NeverLeaks(Step(fs, rs[0]).0, rs[1..]))
  }

  /** What is to spare of a slot never gets less. */
  lemma {:induction false} SpareStays(fs: Fs, rs: seq<Request>, p: nat)
    requires Inv(fs) && Shape(fs) && LegalRun(fs, rs) && p < NR_INODE
    ensures Shape(Exec(fs, rs)) && Spare(Exec(fs, rs), p) >= Spare(fs, p)
    decreases |rs|
  {
    hide Inv, Step, Legal, Leaks, Spare;
    if rs != [] && Step(fs, rs[0]).1 != Panic {
      StepInv(fs, rs[0]);
      StepSpare(fs, rs[0], p);
      SpareStays(Step(fs, rs[0]).0, rs[1..], p);
    }
  }

  lemma {:induction false} RunKeepsExact(fs: Fs, rs: seq<Request>)
    requires Inv(fs) && Shape(fs) && LegalRun(fs, rs) && Exact(fs)
    ensures Shape(Exec(fs, rs)) && (Exact(Exec(fs, rs)) <==> NeverLeaks(fs, rs))
    decreases |rs|
  {
    hide Inv, Step, Legal, Leaks, Spare;
    if rs != [] && Step(fs, rs[0]).1 != Panic {
      StepInv(fs, rs[0]);
      StepExact(fs, rs[0]);
      if p: nat :| p < NR_INODE && Leaks(fs, rs[0], p) {
        StepSpare(fs, rs[0], p);
        SpareStays(Step(fs, rs[0]).0, rs[1..], p);
        assert Spare(fs, p) == 0;
      } else {
        RunKeepsExact(Step(fs, rs[0]).0, rs[1..]);
      }
    }
  }

  /** After a run from a new file system every count is exactly the number of descriptors on the
      inode, and one for the directory, if and only if no request has left a reference behind. */
  lemma RunExact(fs: Fs, rs: seq<Request>)
    requires IsNew(fs) && Inv(fs) && Shape(fs) && LegalRun(fs, rs)
    ensures Exact(Exec(fs, rs)) <==> NeverLeaks(fs, rs)
  {
    NewExact(fs);
    RunKeepsExact(fs, rs);
  }

  /** A descriptor is on the inode. */
  ghost predicate IsOn(fs: Fs, d: nat, nr: nat) {
    d < |fs.fdt| && fs.fdt[d].slot.Some? && fs.fdt[d].slot.value < |fs.table| && fs.table[fs.fdt[d].slot.value].num == nr
  }

  /** While counts are exact, a regular file's inode is in the table only if a descriptor is on it. */
  lemma UsedMeansOpen(fs: Fs, nr: nat)
    requires Inv(fs) && Shape(fs) && Exact(fs) && 0 < nr < MAP_BITS && nr != ROOT_INODE
    ensures FindUsed(fs.table, nr, NR_INODE) >= 0 <==> exists d: nat :: IsOn(fs, d, nr)
  {
    assert fs.table[ROOT_SLOT].num == ROOT_INODE;
    var p := FindUsed(fs.table, nr, NR_INODE);
    if p >= 0 {
      ExactMeansOpen(fs, p);
      var d :| 0 <= d < |fs.fdt| && Refers(fs.fdt[d], p);
      assert IsOn(fs, d, nr);
    }
    if d: nat :| IsOn(fs, d, nr) {
      assert DescOk(fs.fdt[d], fs.table);
      UsedFound(fs.table, nr, fs.fdt[d].slot.value);
    }
  }

  /** So after a run that leaves no reference behind, a regular file is removed exactly when it is
      closed and there is a free slot to load its inode into. */
  lemma ClosedIsRemovable(fs: Fs, rs: seq<Request>, path: seq<byte>)
    requires IsNew(fs) && Inv(fs) && Shape(fs) && LegalRun(fs, rs) && NeverLeaks(fs, rs)
    requires var end := Exec(fs, rs);
             && Inv(end) && Shape(end) && path != [SLASH] && StripPath(path).Name?
             && 0 < Lookup(end, path) < MAP_BITS && end.inodes[Lookup(end, path) - 1].mode == I_REGULAR
    ensures var end := Exec(fs, rs);
            Unlinked(end, path).1 == Done
            <==> (forall d: nat :: !IsOn(end, d, Lookup(end, path))) && FindFree(end.table, NR_INODE) >= 0
  {
    RunExact(fs, rs);
    var end := Exec(fs, rs);
    var nr := Lookup(end, path);
    LookupInUse(end, path);
    assert InodeOk(end.nSmap, nr, end.inodes[nr - 1], |end.data|);
    UsedMeansOpen(end, nr);
    hide Inv, Lookup, Exec, LegalRun, NeverLeaks, Unlinked;
    UnlinkSucceeds(end, path);
  }
}
