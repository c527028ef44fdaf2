/** Where the extent of a new file lies: the sector map has bits for sectors behind the end of the
    device, and a new file can get those. */
module FsExtents {
  import opened FsBits
  import opened FsMaps
  import opened FsDirectory
  import opened FsState
  import opened FsSuper
  import opened FsInvariant
  import opened FsRuns
  import opened FsUndo
  import opened FsMkfs
  import opened FsIdle
  import opened FsLostNames

  /** How many sectors the device has. */
  function Sectors(fs: Fs): nat {
    FirstSect(fs.nSmap) + FILE_SECTS + |fs.data| / 512
  }

  /** The sectors of the next new file are on the device. */
  predicate NextOnDevice(fs: Fs) {
    FirstSect(fs.nSmap) + FirstFree(fs.smapBits) - 1 + FILE_SECTS <= Sectors(fs)
  }

  lemma ExtentOnDevice(fs: Fs, fs1: Fs, caller: nat, fd: nat, flags: nat, name: seq<byte>, nr: nat, s: nat, p: nat)
    requires Shape(fs) && Made(fs, fs1, caller, fd, flags, name, nr, s, p) && |fs.data| % 512 == 0
    ensures IsOpen(fs1, caller, fd) && ReadsAndWrites(DescOf(fs1, caller, fd).mode) == ReadsAndWrites(flags)
    ensures InExtent(fs1, caller, fd, FILE_BYTES) <==> FirstSect(fs.nSmap) + FILE_SECTS * s + FILE_SECTS <= Sectors(fs)
    ensures forall n: nat | n <= FILE_BYTES && InExtent(fs1, caller, fd, FILE_BYTES) :: InExtent(fs1, caller, fd, n)
  {}

  /** Any bytes that an extent has room for can be written. */
  ghost predicate CanBeFilled(fs: Fs, caller: nat, fd: nat)
    requires Inv(fs) && Shape(fs)
  {
    forall bytes | |bytes| <= FILE_BYTES :: Legal(fs, Write(caller, fd, bytes))
  }

  lemma FilledInExtent(fs: Fs, caller: nat, fd: nat)
    requires Inv(fs) && Shape(fs) && IsOpen(fs, caller, fd) && ReadsAndWrites(DescOf(fs, caller, fd).mode)
    requires forall n: nat | n <= FILE_BYTES && InExtent(fs, caller, fd, FILE_BYTES) :: InExtent(fs, caller, fd, n)
    ensures CanBeFilled(fs, caller, fd) <==> InExtent(fs, caller, fd, FILE_BYTES)
  {
    hide Inv, InExtent;
    var all: seq<byte> := seq(FILE_BYTES, _ => 0);
    assert Legal(fs, Write(caller, fd, all)) ==> InExtent(fs, caller, fd, FILE_BYTES);
  }

  /** A new file can be written over its whole extent if and only if the sectors that the first
      free bit of the map stands for are on the device. */
  lemma NewFileWritable(fs: Fs, caller: nat, path: seq<byte>, flags: nat)
    requires Inv(fs) && Shape(fs) && Legal(fs, Open(caller, path, flags)) && CreatesNew(fs, path, flags)
    requires ReadsAndWrites(flags) && Step(fs, Open(caller, path, flags)).1.Fd? && |fs.data| % 512 == 0
    ensures var r := Step(fs, Open(caller, path, flags));
            && Inv(r.0) && Shape(r.0) && (CanBeFilled(r.0, caller, r.1.fd) <==> NextOnDevice(fs))
  {
    var name := StripPath(path).name;
    Make(fs, caller, path, flags, name);
    RoomLeftFacts(fs);
    hide Inv, Step, Lookup, Made, FirstFree, CreateFile, StripPath, Legal, InExtent, HasRoom, NameFits, CanBeFilled;
    var r := Step(fs, Open(caller, path, flags));
    var nr, s, p := FirstFree(fs.imapBits), FirstFree(fs.smapBits) / FILE_SECTS, CreateFile(fs, name).1.p;
    ExtentOnDevice(fs, r.0, caller, r.1.fd, flags, name, nr, s, p);
    FilledInExtent(r.0, caller, r.1.fd);
  }

  /** On a device of `size` sectors, every block that the map has bits for is on the device, if and
      only if what is left behind the last full sector of the map has room for all that is not
      in blocks, and for one block. */
  lemma BlocksOnDevice(size: nat)
    ensures var n := MapSects(size);
            (forall s: nat | s < Blocks(n) :: FirstSect(n) + FILE_SECTS * s + FILE_SECTS <= size)
            <==> FirstSect(n) + FILE_SECTS <= size % MAP_BITS
  {
    var n := MapSects(size);
    var last: nat := Blocks(n) - 1;
    assert FILE_SECTS * last == MAP_BITS * (size / MAP_BITS);
    assert size == MAP_BITS * (size / MAP_BITS) + size % MAP_BITS;
  }

  lemma FirstFile(fs: Fs)
    requires IsNew(fs) && |fs.filp| > 0 && fs.nSmap >= 2
    ensures Inv(fs) && Shape(fs) && RoomLeft(fs) && FirstFree(fs.smapBits) == 1 + FILE_SECTS
    ensures CreatesNew(fs, Letter(0), MAKE) && Legal(fs, Open(0, Letter(0), MAKE))
    ensures Step(fs, Open(0, Letter(0), MAKE)).1 == Fd(0)
  {
    NewFilled(fs);
    CanFill(fs, 0);
    FirstFreeOf(fs.smapBits, 1 + FILE_SECTS);
    hide Filled, Inv, Step, Lookup, Letter, NameFits, RoomLeft, IsNew;
    IdleOpens(fs, Letter(0));
    MakesFirst(fs);
  }

  lemma MakesFirst(fs: Fs)
    requires Inv(fs) && Shape(fs) && CanOpen(fs, 0, Letter(0), MAKE) && CreatesNew(fs, Letter(0), MAKE)
    requires NameFits(fs, StripPath(Letter(0)).name)
    ensures Legal(fs, Open(0, Letter(0), MAKE)) && Step(fs, Open(0, Letter(0), MAKE)) == Opened(fs, 0, Letter(0), MAKE)
  {
    hide Inv, Lookup, Opened, RoomLeft, Letter, NameFits;
  }

  /** A new file system on a device of 4096 sectors. */
  ghost predicate SmallDevice(fs: Fs) {
    IsNew(fs) && |fs.filp| > 0 && |fs.data| % 512 == 0 && Sectors(fs) == 4096 && fs.nSmap == MapSects(4096)
  }

  /** There is room in the maps; the request makes a file, and its extent ends behind the device. */
  ghost predicate MadeBehind(fs: Fs, r: Request)
    requires r.Open?
  {
    && Inv(fs) && Shape(fs) && RoomLeft(fs) && !NextOnDevice(fs)
    && Legal(fs, r) && CreatesNew(fs, r.path, r.flags) && Step(fs, r).1.Fd?
    && Inv(Step(fs, r).0) && Shape(Step(fs, r).0) && !CanBeFilled(Step(fs, r).0, r.caller, Step(fs, r).1.fd)
  }

  lemma SmallEnds(fs: Fs)
    requires SmallDevice(fs) && FirstFree(fs.smapBits) == 1 + FILE_SECTS
    ensures !NextOnDevice(fs)
  {
    hide IsNew, FirstFree;
  }

  /** There the first new file is behind the device in part. */
  lemma NewFileBehindDevice(fs: Fs)
    requires SmallDevice(fs)
    ensures MadeBehind(fs, Open(0, Letter(0), MAKE))
  {
    hide IsNew, Inv, Step, Lookup, FirstFree, Letter, RoomLeft, Legal, CanBeFilled, NextOnDevice;
    FirstFile(fs);
    SmallEnds(fs);
    NewFileWritable(fs, 0, Letter(0), MAKE);
  }
}
