/** The super block: the shape of the file system, in sector 1. */
module FsSuper {
  import opened FsBits
  import opened FsDevice
  import opened FsMaps
  import opened FsInodes
  import opened FsDirectory
  import opened FsState

  const SUPER_SECT: nat := 1
  const MAGIC_V1: nat := 0x111

  datatype Super = Super(
    magic: nat, nrInodes: nat, nrSects: nat, nrImapSects: nat, nrSmapSects: nat, firstSect: nat, nrInodeSects: nat,
    rootInode: nat, inodeSize: nat, sizeOff: nat, startOff: nat, dirEntSize: nat, dirEntInodeOff: nat, dirEntNameOff: nat)

  /** How many sectors the sector map has. */
  function MapSects(size: nat): (n: nat)
    ensures n > 0
  {
    size / MAP_BITS + 1
  }

  /** The super block of a device of `size` sectors. */
  function NewSuper(size: nat): Super {
    Super(MAGIC_V1, MAP_BITS, size, 1, MapSects(size), 1 + 1 + 1 + MapSects(size) + MAP_BITS * INODE_SIZE / SECTOR_SIZE,
          MAP_BITS * INODE_SIZE / SECTOR_SIZE, ROOT_INODE, INODE_SIZE, 4, 8, DIR_ENTRY_SIZE, 0, 4)
  }

  /** The numbers in the order in which they are stored. */
  function Fields(x: Super): (r: seq<nat>)
    ensures |r| == 14
  {
    [x.magic, x.nrInodes, x.nrSects, x.nrImapSects, x.nrSmapSects, x.firstSect, x.nrInodeSects,
     x.rootInode, x.inodeSize, x.sizeOff, x.startOff, x.dirEntSize, x.dirEntInodeOff, x.dirEntNameOff]
  }

  /** The super block that a sector holds. */
  function SuperIn(sec: seq<byte>): Super
    requires |sec| >= 56
  {
    Super(Get32(sec, 0), Get32(sec, 4), Get32(sec, 8), Get32(sec, 12), Get32(sec, 16), Get32(sec, 20), Get32(sec, 24),
          Get32(sec, 28), Get32(sec, 32), Get32(sec, 36), Get32(sec, 40), Get32(sec, 44), Get32(sec, 48), Get32(sec, 52))
  }

  /** The sector holds the super block of a device of `size` sectors, and is filled up behind it. */
  ghost predicate IsSuper(sec: Sector, size: nat) {
    SuperIn(sec) == NewSuper(size) && forall i | 56 <= i < 512 :: sec[i] == 0x90
  }

  ghost predicate HasSuper(d: seq<Sector>, size: nat) {
    |d| > SUPER_SECT && IsSuper(d[SUPER_SECT], size)
  }

  lemma FieldsStored(sec: seq<byte>, x: Super)
    requires |sec| >= 56 && forall i | 0 <= i < 14 :: Get32(sec, 4 * i) == Fields(x)[i]
    ensures SuperIn(sec) == x
  {
    hide Get32;
    var f := Fields(x);
    assert Get32(sec, 4 * 0) == f[0] && Get32(sec, 4 * 1) == f[1] && Get32(sec, 4 * 2) == f[2] && Get32(sec, 4 * 3) == f[3];
    assert Get32(sec, 4 * 4) == f[4] && Get32(sec, 4 * 5) == f[5] && Get32(sec, 4 * 6) == f[6] && Get32(sec, 4 * 7) == f[7];
    assert Get32(sec, 4 * 8) == f[8] && Get32(sec, 4 * 9) == f[9] && Get32(sec, 4 * 10) == f[10] && Get32(sec, 4 * 11) == f[11];
    assert Get32(sec, 4 * 12) == f[12] && Get32(sec, 4 * 13) == f[13];
  }

  /** The numbers in the super block describe the layout that everything else uses. */
  lemma SuperLayout(size: nat)
    ensures var x := NewSuper(size);
            && x.nrSmapSects == MapSects(size) && x.firstSect == FirstSect(MapSects(size))
            && x.nrInodes == NR_INODES && x.nrInodeSects == NR_INODE_SECTS
            && 1 + 1 + x.nrImapSects == SMAP_SECT
  {}

  /** Its numbers say where the parts of an inode and of an entry are found. */
  lemma SuperOffsets(size: nat, sec: Sector, k: nat, e: nat)
    requires k < 16 && e < 32
    ensures var x := NewSuper(size);
            && x.magic == 0x111 && x.nrSects == size && x.rootInode == 1
            && InodeIn(sec, k).size == Get32(sec, x.inodeSize * k + x.sizeOff)
            && InodeIn(sec, k).start == Get32(sec, x.inodeSize * k + x.startOff)
            && EntryIn(sec, e).nr == Get32(sec, x.dirEntSize * e + x.dirEntInodeOff)
            && EntryIn(sec, e).name == sec[x.dirEntSize * e + x.dirEntNameOff..x.dirEntSize * e + x.dirEntSize]
  {
    hide Get32;
  }

  /** One number more. */
  lemma FieldAdded(s: seq<byte>, i: nat, x: nat)
    requires 4 * i + 4 <= |s| && x < LIMIT32
    ensures var s' := Splice(s, 4 * i, Bytes32(x));
            Get32(s', 4 * i) == x && forall j | 0 <= j < i :: Get32(s', 4 * j) == Get32(s, 4 * j)
  {
    hide Get32, Bytes32, Splice;
    var s' := Splice(s, 4 * i, Bytes32(x));
    assert s'[4 * i..4 * i + 4] == Bytes32(x);
    Number32RoundTrip(x, s', 4 * i);
    forall j | 0 <= j < i ensures Get32(s', 4 * j) == Get32(s, 4 * j) {
      Get32Elsewhere(s, s', 4 * j);
    }
  }

  /** memset(fsbuf, 0x90, SECTOR_SIZE) */
  method FillBuffer(dev: Device)
    requires dev.Valid()
    modifies dev.fsbuf
    ensures forall j | 0 <= j < 512 :: dev.fsbuf[j] == 0x90
  {
    for i := 0 to 512
      invariant forall j | 0 <= j < i :: dev.fsbuf[j] == 0x90
    {
      dev.fsbuf[i] := 0x90;
    }
  }

  /** Stores the numbers at the start of the buffer. */
  method PutFields(dev: Device, f: seq<nat>)
    requires dev.Valid() && |f| == 14 && forall i | 0 <= i < 14 :: f[i] < LIMIT32
    modifies dev.fsbuf
    ensures forall j | 0 <= j < 14 :: Get32(dev.fsbuf[..], 4 * j) == f[j]
    ensures forall j | 56 <= j < dev.fsbuf.Length :: dev.fsbuf[j] == old(dev.fsbuf[j])
  {
    hide Get32, Bytes32, Splice;
    for i := 0 to 14
      invariant forall j | 56 <= j < dev.fsbuf.Length :: dev.fsbuf[j] == old(dev.fsbuf[j])
      invariant forall j | 0 <= j < i :: Get32(dev.fsbuf[..], 4 * j) == f[j]
    {
      ghost var s := dev.fsbuf[..];
      FieldAdded(s, i, f[i]);
      Put32(dev, 4 * i, f[i]);
    }
  }

  /** Writes the super block; the rest of its sector is filled up. */
  method WriteSuper(dev: Device, size: nat)
    requires dev.Valid() && SUPER_SECT < dev.disk.Length && size < LIMIT32 && FirstSect(MapSects(size)) < LIMIT32
    modifies dev.disk, dev.fsbuf
    ensures SameOutside(old(dev.disk[..]), dev.disk[..], SUPER_SECT, 1)
    ensures HasSuper(dev.disk[..], size)
  {
    hide Get32, Splice, SuperIn;
    FillBuffer(dev);
    var f := Fields(NewSuper(size));
    assert forall i | 0 <= i < 14 :: f[i] < LIMIT32;
    hide NewSuper, Fields;
    PutFields(dev, f);
    dev.WrSect(SUPER_SECT);
    forall j | 0 <= j < 14 ensures Get32(dev.disk[SUPER_SECT], 4 * j) == f[j] {
      Get32Prefix(dev.disk[SUPER_SECT], dev.fsbuf[..], 4 * j);
    }
    FieldsStored(dev.disk[SUPER_SECT], NewSuper(size));
  }

  /** Reads the super block. */
  method ReadSuper(dev: Device) returns (x: Super)
    requires dev.Valid() && SUPER_SECT < dev.disk.Length
    modifies dev.fsbuf
    ensures x == SuperIn(dev.disk[SUPER_SECT])
  {
    hide Get32;
    dev.RdSect(SUPER_SECT);
    x := SuperIn(dev.fsbuf[..512]);
    assert dev.fsbuf[..512] == dev.disk[SUPER_SECT];
  }
}
