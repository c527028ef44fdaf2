/** The file system as a store of named files: what every request does to the contents that
    each name stands for, and that files do not interfere. */
module FsStore {
  import opened FsBits
  import opened FsMaps
  import opened FsInodes
  import opened FsDirectory
  import opened FsTransfer
  import opened FsState
  import opened FsInvariant
  import opened FsCreate
  import opened FsRuns

  // ---------------------------------------------------------------- names

  /** Entry e is in use for the name. */
  ghost predicate Names(dir: seq<Entry>, e: nat, name: seq<byte>) {
    |name| <= 12 && e < |dir| && dir[e].nr != 0 && dir[e].name == Padded(name)
  }

  /** A good name stands for the inode of the entry that has it. */
  lemma LookupEntry(fs: Fs, name: seq<byte>, e: nat)
    requires Inv(fs) && Shape(fs) && GoodName(name) && Names(fs.dir, e, name)
    ensures Lookup(fs, name) == fs.dir[e].nr
  {
    hide InodesOk, ExtentsDisjoint, SectorMapExact, Counted, DescsOk, FilesOk, Coherent, FindName, Padded, InodeMapExact;
    StripPathOfName(name);
    PaddedNotEmpty(name);
    NamedUsed(fs.dir, Padded(name));
    SearchCovers(fs.dir, DirSize(fs.table), e);
    var f := FindName(fs.dir, Padded(name), SearchEnd(DirSize(fs.table)));
    assert f <= e;
  }

  /** A good name that no entry has stands for nothing, and the other way round. */
  lemma LookupNone(fs: Fs, name: seq<byte>)
    requires Inv(fs) && Shape(fs) && GoodName(name)
    ensures Lookup(fs, name) == 0 <==> forall e: nat :: !Names(fs.dir, e, name)
  {
    hide InodesOk, ExtentsDisjoint, SectorMapExact, Counted, DescsOk, FilesOk, Coherent, FindName, Padded, InodeMapExact;
    StripPathOfName(name);
    if e: nat :| Names(fs.dir, e, name) {
      LookupEntry(fs, name, e);
    }
    var f := FindName(fs.dir, Padded(name), SearchEnd(DirSize(fs.table)));
    assert Lookup(fs, name) != 0 ==> f >= 0 && Names(fs.dir, f, name);
  }

  /** A change of one entry that has nothing to do with a name leaves that name alone. */
  lemma LookupSame(fs: Fs, fs': Fs, name: seq<byte>, e: nat, x: Entry)
    requires Inv(fs) && Shape(fs) && Inv(fs') && Shape(fs') && GoodName(name)
    requires e < |fs.dir| && fs'.dir == fs.dir[e := x]
    requires !Names(fs.dir, e, name) && !(x.nr != 0 && x.name == Padded(name))
    ensures Lookup(fs', name) == Lookup(fs, name)
  {
    hide Inv, Padded, Lookup;
    LookupNone(fs, name);
    LookupNone(fs', name);
    if a: nat :| Names(fs.dir, a, name) {
      assert Names(fs'.dir, a, name);
      LookupEntry(fs, name, a);
      LookupEntry(fs', name, a);
    } else {
      forall a: nat ensures !Names(fs'.dir, a, name) {
        assert !Names(fs.dir, a, name);
      }
    }
  }

  /** Two names do not stand for the same inode. */
  lemma LookupInjective(fs: Fs, a: seq<byte>, b: seq<byte>)
    requires Inv(fs) && Shape(fs) && GoodName(a) && GoodName(b) && Lookup(fs, a) == Lookup(fs, b) != 0
    ensures a == b
  {
    hide InodesOk, ExtentsDisjoint, SectorMapExact, Counted, DescsOk, FilesOk, Coherent, FindName, Padded, InodeMapExact, Lookup;
    LookupNone(fs, a);
    LookupNone(fs, b);
    var e: nat :| Names(fs.dir, e, a);
    var f: nat :| Names(fs.dir, f, b);
    LookupEntry(fs, a, e);
    LookupEntry(fs, b, f);
    assert e == f;
    PaddedInjective(a, b);
  }

  // ---------------------------------------------------------------- contents

  /** What a name stands for. */
  datatype View = Absent | Special | File(bytes: seq<byte>)

  /** The contents of an inode: the first bytes of its extent. */
  ghost function Contents(nSmap: nat, data: seq<byte>, x: Inode): View
    requires x.mode == I_REGULAR ==> Base(nSmap, x) >= 0 && (x.size > 0 ==> Base(nSmap, x) + x.size <= |data|)
  {
    if x.mode == I_REGULAR then File(Cut(data, Base(nSmap, x), x.size)) else Special
  }

  lemma InUseOk(fs: Fs, nr: nat)
    requires Inv(fs) && 0 < nr < MAP_BITS && |fs.imapBits| == MAP_BITS && fs.imapBits[nr] && |fs.inodes| == NR_INODES
    ensures InodeOk(fs.nSmap, nr, fs.inodes[nr - 1], |fs.data|)
  {}

  ghost function ViewOf(fs: Fs, name: seq<byte>): View
    requires Inv(fs) && Shape(fs) && GoodName(name)
  {
    var nr := Lookup(fs, name);
    LookupInUse(fs, name);
    if nr == 0 then Absent
    else
      InUseOk(fs, nr);
      Contents(fs.nSmap, fs.data, fs.inodes[nr - 1])
  }

  /** A name that stands for the same inode, which is still the same on disk, has the same
      view if the data is the same. */
  lemma ViewSame(fs: Fs, fs': Fs, name: seq<byte>)
    requires Inv(fs) && Shape(fs) && Inv(fs') && Shape(fs') && GoodName(name)
    requires fs'.nSmap == fs.nSmap && fs'.data == fs.data && Lookup(fs', name) == Lookup(fs, name)
    requires Lookup(fs, name) != 0 && Lookup(fs, name) <= NR_INODES ==>
               SameFile(fs.inodes[Lookup(fs, name) - 1], fs'.inodes[Lookup(fs, name) - 1])
    ensures ViewOf(fs', name) == ViewOf(fs, name)
  {
    hide Inv, Lookup;
    LookupInUse(fs, name);
    if Lookup(fs, name) != 0 {
      LookupInUse(fs', name);
      InUseOk(fs, Lookup(fs, name));
      InUseOk(fs', Lookup(fs, name));
    }
  }

  /** The two inodes stand for the same bytes, or both for none. */
  ghost predicate SameFile(x: Inode, y: Inode) {
    x.mode == y.mode && (x.mode == I_REGULAR ==> x == y)
  }

  // ---------------------------------------------------------------- what a request does to a name

  /** The bytes with b written over them from position pos on. */
  ghost function Patched(bytes: seq<byte>, pos: nat, b: seq<byte>): seq<byte>
    requires pos <= |bytes|
  {
    bytes[..pos] + b + if pos + |b| <= |bytes| then bytes[pos + |b|..] else []
  }

  /** The request writes to the file with the name. */
  ghost predicate WritesTo(fs: Fs, r: Request, name: seq<byte>)
    requires Inv(fs) && Shape(fs) && Legal(fs, r)
  {
    r.Write? && ReadsAndWrites(DescOf(fs, r.caller, r.fd).mode)
    && SlotOf(fs, r.caller, r.fd).num == Lookup(fs, name)
  }

  /** The request reads the file with the name past its end, which makes it grow. */
  ghost predicate ReadsPast(fs: Fs, r: Request, name: seq<byte>)
    requires Inv(fs) && Shape(fs) && Legal(fs, r)
  {
    r.Read? && ReadsAndWrites(DescOf(fs, r.caller, r.fd).mode)
    && SlotOf(fs, r.caller, r.fd).num == Lookup(fs, name)
    && DescOf(fs, r.caller, r.fd).pos + r.len > SlotOf(fs, r.caller, r.fd).ino.size
  }

  ghost predicate MakesNew(fs: Fs, r: Request, name: seq<byte>)
    requires Inv(fs) && Shape(fs) && Legal(fs, r)
  {
    r.Open? && CreatesNew(fs, r.path, r.flags) && StripPath(r.path).name == name && Step(fs, r).1.Fd?
  }

  ghost predicate Deletes(fs: Fs, r: Request, name: seq<byte>)
    requires Inv(fs) && Shape(fs) && Legal(fs, r)
  {
    r.Unlink? && StripPath(r.path) == Name(name) && Step(fs, r).1 == Done
  }

  /** What a name stands for after a request, said without maps, inodes and sectors. */
  ghost predicate ViewAfter(fs: Fs, r: Request, name: seq<byte>, v: View)
    requires Inv(fs) && Shape(fs) && Legal(fs, r) && GoodName(name)
  {
    if WritesTo(fs, r, name) then
      && ViewOf(fs, name).File? && DescOf(fs, r.caller, r.fd).pos <= |ViewOf(fs, name).bytes|
      && v == File(Patched(ViewOf(fs, name).bytes, DescOf(fs, r.caller, r.fd).pos, r.bytes))
    else if ReadsPast(fs, r, name) then
      && ViewOf(fs, name).File? && v.File? && ViewOf(fs, name).bytes < v.bytes
      && |v.bytes| == DescOf(fs, r.caller, r.fd).pos + ReadCount(fs, r.caller, r.fd, r.len)
    else if MakesNew(fs, r, name) then v == File([])
    else if Deletes(fs, r, name) then v == Absent
    else v == ViewOf(fs, name)
  }
}
