/** The inode map and the sector map: allocating a bit, allocating a run of bits, and
    clearing a run of bits, byte by byte and across sectors. */
module FsMaps {
  import opened FsBits
  import opened FsDevice

  /** Bits in one sector of a map. */
  const MAP_BITS: nat := 4096

  /** Bit k of byte j of sector i of the map that starts at sector s0. */
  predicate BitAt(d: seq<Sector>, s0: nat, i: nat, j: nat, k: nat)
    requires s0 + i < |d| && j < 512 && k < 8
  {
    Bit(d[s0 + i][j], k)
  }

  /** The bits of the n map sectors from s0. */
  function Bits(d: seq<Sector>, s0: nat, n: nat): (r: seq<bool>)
    requires s0 + n <= |d|
    ensures |r| == n * MAP_BITS
  {
    seq(n * MAP_BITS, b requires 0 <= b < n * MAP_BITS => BitAt(d, s0, b / 4096, b % 4096 / 8, b % 8))
  }

  /** `bits` with the n bits from f set to v. */
  function SetRange(bits: seq<bool>, f: nat, n: nat, v: bool): (r: seq<bool>)
    requires f + n <= |bits|
    ensures |r| == |bits|
    ensures forall b | 0 <= b < |bits| :: r[b] == if f <= b < f + n then v else bits[b]
  {
    bits[..f] + seq(n, _ => v) + bits[f + n..]
  }

  /** The number in the map of bit k of byte j of sector i. */
  function Pos(i: nat, j: nat, k: nat): nat
    requires j < 512 && k < 8
  {
    i * 4096 + j * 8 + k
  }

  lemma PosDivides(i: nat, j: nat, k: nat)
    requires j < 512 && k < 8
    ensures var b := Pos(i, j, k); b / 4096 == i && b % 4096 / 8 == j && b % 8 == k
  {}

  lemma PosOf(b: nat)
    ensures b == Pos(b / 4096, b % 4096 / 8, b % 8)
  {}

  /** Two maps that agree on every bit of every byte are equal. */
  lemma SameMap(x: seq<bool>, y: seq<bool>, n: nat)
    requires |x| == |y| == n * 4096
    requires forall i, j, k | 0 <= i < n && 0 <= j < 512 && 0 <= k < 8 :: x[Pos(i, j, k)] == y[Pos(i, j, k)]
    ensures x == y
  {
    forall b | 0 <= b < |x| ensures x[b] == y[b] {
      PosOf(b);
    }
  }

  lemma BitsAt(d: seq<Sector>, s0: nat, n: nat, i: nat, j: nat, k: nat)
    requires s0 + n <= |d| && i < n && j < 512 && k < 8
    ensures Pos(i, j, k) < n * MAP_BITS && Bits(d, s0, n)[Pos(i, j, k)] == Bit(d[s0 + i][j], k)
  {
    PosDivides(i, j, k);
  }

  /** No other sector than the map's is different. */
  predicate SameOutside(d: seq<Sector>, d': seq<Sector>, s0: nat, n: nat) {
    |d'| == |d| && forall s | 0 <= s < |d| && !(s0 <= s < s0 + n) :: d'[s] == d[s]
  }

  // ---------------------------------------------------------------- marked runs of bits

  predicate IsFirstFree(bits: seq<bool>, f: nat) {
    f < |bits| && !bits[f] && forall b | 0 <= b < f :: bits[b]
  }

  /** All of the n bits from f have the value v. */
  predicate Uniform(bits: seq<bool>, f: nat, n: nat, v: bool) {
    f + n <= |bits| && forall b | f <= b < f + n :: bits[b] == v
  }

  /** Byte x is byte o with the bits numbered from lo up to hi changed to v; bit 0 has
      number p. */
  predicate ByteMarked(o: byte, x: byte, p: nat, lo: nat, hi: nat, v: bool) {
    forall k | 0 <= k < 8 :: Bit(x, k) == if lo <= p + k < hi then v else Bit(o, k)
  }

  predicate SectorMarked(o: seq<byte>, x: seq<byte>, i: nat, lo: nat, hi: nat, v: bool)
    requires |o| == |x| == 512
  {
    forall j | 0 <= j < 512 :: ByteMarked(o[j], x[j], Pos(i, j, 0), lo, hi, v)
  }

  predicate MapSectorMarked(d: seq<Sector>, d': seq<Sector>, s0: nat, i: nat, lo: nat, hi: nat, v: bool)
    requires s0 + i < |d| == |d'|
  {
    SectorMarked(d[s0 + i], d'[s0 + i], i, lo, hi, v)
  }

  /** The map in d' is the map in d with the bits from lo up to hi changed to v. */
  predicate MapMarked(d: seq<Sector>, d': seq<Sector>, s0: nat, n: nat, lo: nat, hi: nat, v: bool)
    requires s0 + n <= |d| == |d'|
  {
    forall i | 0 <= i < n :: MapSectorMarked(d, d', s0, i, lo, hi, v)
  }

  /** Marks that do not fall into the byte leave it as it was marked before. */
  lemma ByteElsewhere(o: byte, x: byte, p: nat, lo: nat, mid: nat, hi: nat, v: bool)
    requires ByteMarked(o, x, p, lo, mid, v) && lo <= mid <= hi && (p + 8 <= mid || hi <= p)
    ensures ByteMarked(o, x, p, lo, hi, v)
  {}

  lemma SectorElsewhere(o: seq<byte>, x: seq<byte>, i: nat, lo: nat, mid: nat, hi: nat, v: bool)
    requires |o| == |x| == 512 && SectorMarked(o, x, i, lo, mid, v)
    requires lo <= mid <= hi && ((i + 1) * 4096 <= mid || hi <= i * 4096)
    ensures SectorMarked(o, x, i, lo, hi, v)
  {
    forall j | 0 <= j < 512 ensures ByteMarked(o[j], x[j], Pos(i, j, 0), lo, hi, v) {
      ByteElsewhere(o[j], x[j], Pos(i, j, 0), lo, mid, hi, v);
    }
  }

  /** Marking further bits from bit k of byte j on. */
  lemma SectorExtend(o: seq<byte>, x: seq<byte>, i: nat, j: nat, b: byte, k: nat, lo: nat, mid: nat, hi: nat, v: bool)
    requires |o| == |x| == 512 && j < 512 && k < 8 && SectorMarked(o, x, i, lo, mid, v)
    requires lo <= mid == Pos(i, j, k) && mid <= hi <= Pos(i, j, 0) + 8
    requires ByteMarked(x[j], b, 0, k, k + hi - mid, v)
    ensures SectorMarked(o, x[j := b], i, lo, hi, v)
  {
    forall j' | 0 <= j' < 512 ensures ByteMarked(o[j'], x[j := b][j'], Pos(i, j', 0), lo, hi, v) {
      if j' == j {
        assert ByteMarked(o[j], x[j], Pos(i, j, 0), lo, mid, v);
      } else {
        ByteElsewhere(o[j'], x[j'], Pos(i, j', 0), lo, mid, hi, v);
      }
    }
  }

  lemma MapExtend(d: seq<Sector>, d1: seq<Sector>, s0: nat, n: nat, i: nat, x: Sector, lo: nat, mid: nat, hi: nat, v: bool)
    requires s0 + n <= |d| == |d1| && i < n && MapMarked(d, d1, s0, n, lo, mid, v)
    requires lo <= mid <= hi <= (i + 1) * 4096 && i * 4096 <= mid
    requires SectorMarked(d[s0 + i], x, i, lo, hi, v)
    ensures MapMarked(d, d1[s0 + i := x], s0, n, lo, hi, v)
  {
    var d2 := d1[s0 + i := x];
    forall i' | 0 <= i' < n ensures MapSectorMarked(d, d2, s0, i', lo, hi, v) {
      if i' != i {
        assert MapSectorMarked(d, d1, s0, i', lo, mid, v);
        SectorElsewhere(d[s0 + i'], d1[s0 + i'], i', lo, mid, hi, v);
      }
    }
  }

  lemma FullByteSkipped(d: seq<Sector>, s0: nat, n: nat, i: nat, j: nat, f: nat)
    requires s0 + n <= |d| && i < n && j < 512 && IsFirstFree(Bits(d, s0, n), f)
    requires f >= Pos(i, j, 0) && d[s0 + i][j] == 0xFF
    ensures f >= Pos(i, j, 0) + 8
  {
    hide Bits;
    FullByte(d[s0 + i][j]);
    forall k | 0 <= k < 8 ensures f != Pos(i, j, k) {
      BitsAt(d, s0, n, i, j, k);
    }
    assert f != Pos(i, j, 0) && f != Pos(i, j, 1) && f != Pos(i, j, 2) && f != Pos(i, j, 3)
           && f != Pos(i, j, 4) && f != Pos(i, j, 5) && f != Pos(i, j, 6) && f != Pos(i, j, 7);
  }

  lemma FreeBitFound(d: seq<Sector>, s0: nat, n: nat, i: nat, j: nat, o: byte, k: nat, f: nat)
    requires s0 + n <= |d| && i < n && j < 512 && k < 8 && IsFirstFree(Bits(d, s0, n), f)
    requires f >= Pos(i, j, 0) && o == d[s0 + i][j] && !Bit(o, k) && forall x | 0 <= x < k :: Bit(o, x)
    ensures f == Pos(i, j, k)
  {
    hide Bits, Bit;
    BitsAt(d, s0, n, i, j, k);
    if f < Pos(i, j, k) {
      var x := f - Pos(i, j, 0);
      BitsAt(d, s0, n, i, j, x);
    }
  }

  lemma ClearAhead(d: seq<Sector>, s0: nat, n: nat, i: nat, j: nat, f: nat, count: nat)
    requires s0 + n <= |d| && i < n && j < 512 && Uniform(Bits(d, s0, n), f, count, false)
    ensures forall x | 0 <= x < 8 && f <= Pos(i, j, x) < f + count :: !Bit(d[s0 + i][j], x)
  {
    hide Bits, Bit;
    forall x | 0 <= x < 8 && f <= Pos(i, j, x) < f + count ensures !Bit(d[s0 + i][j], x) {
      BitsAt(d, s0, n, i, j, x);
    }
  }

  lemma NothingMarked(d: seq<Sector>, s0: nat, n: nat, f: nat, v: bool)
    requires s0 + n <= |d|
    ensures MapMarked(d, d, s0, n, f, f, v)
  {}

  lemma SectorUnmarked(o: seq<byte>, i: nat, lo: nat, hi: nat, v: bool)
    requires |o| == 512 && (hi <= i * 4096 || hi <= lo)
    ensures SectorMarked(o, o, i, lo, hi, v)
  {}

  lemma MarkedRange(d: seq<Sector>, d': seq<Sector>, s0: nat, n: nat, f: nat, count: nat, v: bool)
    requires s0 + n <= |d| == |d'| && f + count <= n * 4096
    requires MapMarked(d, d', s0, n, f, f + count, v)
    ensures Bits(d', s0, n) == SetRange(Bits(d, s0, n), f, count, v)
  {
    hide Bit, Bits;
    var x, y := Bits(d', s0, n), SetRange(Bits(d, s0, n), f, count, v);
    forall i, j, k | 0 <= i < n && 0 <= j < 512 && 0 <= k < 8 ensures x[Pos(i, j, k)] == y[Pos(i, j, k)] {
      BitsAt(d, s0, n, i, j, k);
      BitsAt(d', s0, n, i, j, k);
      assert MapSectorMarked(d, d', s0, i, f, f + count, v);
      assert ByteMarked(d[s0 + i][j], d'[s0 + i][j], Pos(i, j, 0), f, f + count, v);
    }
    SameMap(x, y, n);
  }

  // ---------------------------------------------------------------- alloc_imap_bit

  /** Lowest clear bit of a byte that is not full. */
  method ClearBitOf(b: byte) returns (k: nat)
    requires b != 0xFF
    ensures k < 8 && !Bit(b, k) && forall i | 0 <= i < k :: Bit(b, i)
  {
    FullByte(b);
    k := 0;
    while Bit(b, k)
      invariant k < 8 && (forall i | 0 <= i < k :: Bit(b, i)) && exists i | k <= i < 8 :: !Bit(b, i)
      decreases 8 - k
    {
      k := k + 1;
    }
  }

  /** Sets the lowest clear bit of the one-sector inode map and returns its number; 0, with
      the map unchanged, when every bit is set. */
  method AllocImapBit(dev: Device, blk0: nat) returns (nr: nat)
    requires dev.Valid() && blk0 < dev.disk.Length
    modifies dev.disk, dev.fsbuf
    ensures var bits := old(Bits(dev.disk[..], blk0, 1));
            && SameOutside(old(dev.disk[..]), dev.disk[..], blk0, 1)
            && (Uniform(bits, 0, MAP_BITS, true) ==> nr == 0 && dev.disk[..] == old(dev.disk[..]))
            && (!Uniform(bits, 0, MAP_BITS, true) ==>
                  IsFirstFree(bits, nr) && Bits(dev.disk[..], blk0, 1) == SetRange(bits, nr, 1, true))
  {
    hide Bit, One, Bits;
    ghost var d := dev.disk[..];
    ghost var bits := Bits(d, blk0, 1);
    nr := 0;
    dev.RdSect(blk0);
    var j := 0;
    while j < 512
      invariant 0 <= j <= 512 && dev.disk[..] == d && dev.fsbuf[..512] == d[blk0]
      invariant forall b | 0 <= b < j * 8 :: bits[b]
    {
      assert dev.fsbuf[j] == dev.fsbuf[..512][j];
      if dev.fsbuf[j] == 0xFF {
        FullByteBits(d, blk0, j);
        j := j + 1;
        continue;
      }
      var k := ClearBitOf(dev.fsbuf[j]);
      nr := (0 * SECTOR_SIZE + j) * 8 + k;
      ByteBits(d, blk0, j);
      forall b | 0 <= b < nr ensures bits[b] {
        if j * 8 <= b {
          assert bits[j * 8 + (b - j * 8)] == Bit(dev.fsbuf[j], b - j * 8);
        }
      }
      assert IsFirstFree(bits, nr);
      ghost var o := d[blk0];
      dev.fsbuf[j] := dev.fsbuf[j] | One(k);
      forall y | 0 <= y < 8 ensures Bit(dev.fsbuf[j], y) == if k <= 0 + y < k + 1 then true else Bit(o[j], y) {
        SetBit(o[j], k, y);
      }
      NothingMarked(d, blk0, 1, nr, true);
      SectorUnmarked(o, 0, nr, nr, true);
      SectorExtend(o, o, 0, j, dev.fsbuf[j], k, nr, nr, nr + 1, true);
      assert dev.fsbuf[..512] == o[j := dev.fsbuf[j]];
      MapExtend(d, d, blk0, 1, 0, dev.fsbuf[..512], nr, nr, nr + 1, true);
      dev.WrSect(blk0);
      MarkedRange(d, dev.disk[..], blk0, 1, nr, 1, true);
      return;
    }
  }

  lemma ByteBits(d: seq<Sector>, blk0: nat, j: nat)
    requires blk0 < |d| && j < 512
    ensures forall x | 0 <= x < 8 :: Bits(d, blk0, 1)[j * 8 + x] == Bit(d[blk0][j], x)
  {
    hide Bit, Bits;
    forall x | 0 <= x < 8 ensures Bits(d, blk0, 1)[j * 8 + x] == Bit(d[blk0][j], x) {
      BitsAt(d, blk0, 1, 0, j, x);
    }
  }

  lemma FullByteBits(d: seq<Sector>, blk0: nat, j: nat)
    requires blk0 < |d| && j < 512 && d[blk0][j] == 0xFF
    ensures forall b | j * 8 <= b < j * 8 + 8 :: Bits(d, blk0, 1)[b]
  {
    FullByte(d[blk0][j]);
    ByteBits(d, blk0, j);
    hide Bit, Bits;
    forall b | j * 8 <= b < j * 8 + 8 ensures Bits(d, blk0, 1)[b] {
      assert Bits(d, blk0, 1)[j * 8 + (b - j * 8)] == Bit(d[blk0][j], b - j * 8);
    }
  }

  // ---------------------------------------------------------------- alloc_smap_bit

  /** Sets bits of b from bit k on until the byte ends or `left` bits are set. */
  method FillBits(b: byte, k: nat, left: nat) returns (b': byte, left': nat)
    requires k < 8 && left > 0
    requires forall x | k <= x < 8 && x < k + left :: !Bit(b, x)
    ensures left' == if left <= 8 - k then 0 else left - (8 - k)
    ensures ByteMarked(b, b', 0, k, k + left - left', true)
  {
    hide Bit, One;
    b', left' := b, left;
    var x := k;
    while x < 8
      invariant k <= x <= 8 && left' == left - (x - k) && left' > 0
      invariant ByteMarked(b, b', 0, k, x, true)
    {
      assert !Bit(b', x);
      ghost var b1 := b';
      b' := b' | One(x);
      forall y | 0 <= y < 8 ensures Bit(b', y) == if k <= 0 + y < x + 1 then true else Bit(b, y) {
        SetBit(b1, x, y);
      }
      left' := left' - 1;
      if left' == 0 {
        return;
      }
      x := x + 1;
    }
  }

  /** Sets `count` bits of the sector map from its first clear bit f on, all of which must be
      clear, and returns the sector that bit f stands for. */
  method AllocSmapBit(dev: Device, smap0: nat, nSmap: nat, nFirst: nat, count: nat, ghost f: nat) returns (sect: nat)
    requires dev.Valid() && smap0 + nSmap <= dev.disk.Length && nFirst >= 2 && count > 0
    requires IsFirstFree(Bits(dev.disk[..], smap0, nSmap), f)
    requires Uniform(Bits(dev.disk[..], smap0, nSmap), f, count, false)
    modifies dev.disk, dev.fsbuf
    ensures sect == f - 1 + nFirst
    ensures SameOutside(old(dev.disk[..]), dev.disk[..], smap0, nSmap)
    ensures Bits(dev.disk[..], smap0, nSmap) == SetRange(old(Bits(dev.disk[..], smap0, nSmap)), f, count, true)
  {
    hide Bit, Bits;
    ghost var d := dev.disk[..];
    ghost var bits := Bits(d, smap0, nSmap);
    sect := 0;
    var left := count;
    var i := 0;
    NothingMarked(d, smap0, nSmap, f, true);
    while i < nSmap && left > 0
      invariant 0 <= i <= nSmap && Progress(i * 4096, sect, left, nFirst, f, count)
      invariant SameOutside(d, dev.disk[..], smap0, nSmap)
      invariant MapMarked(d, dev.disk[..], smap0, nSmap, f, f + count - left, true)
      invariant left > 0 ==> forall s | smap0 + i <= s < |d| :: dev.disk[s] == d[s]
    {
      sect, left := MarkSector(dev, smap0, nSmap, nFirst, i, sect, left, d, f, count);
      i := i + 1;
    }
    assert left == 0;
    MarkedRange(d, dev.disk[..], smap0, nSmap, f, count, true);
  }

  /** How far the allocation has come when the bits below `at` have been looked at. */
  predicate Progress(at: nat, sect: nat, left: nat, nFirst: nat, f: nat, count: nat) {
    && left <= count
    && (sect == 0 ==> left == count && f >= at)
    && (sect != 0 ==> sect + 1 == f + nFirst && f < at && f + count - left <= at)
    && (sect != 0 && left > 0 ==> f + count - left == at)
  }

  /** The part of the allocation that falls into sector i of the map. */
  method MarkSector(dev: Device, smap0: nat, nSmap: nat, nFirst: nat, i: nat, sect0: nat, left0: nat,
                    ghost d: seq<Sector>, ghost f: nat, ghost count: nat)
    returns (sect: nat, left: nat)
    requires dev.Valid() && smap0 + nSmap <= dev.disk.Length == |d| && nFirst >= 2 && i < nSmap
    requires IsFirstFree(Bits(d, smap0, nSmap), f) && Uniform(Bits(d, smap0, nSmap), f, count, false)
    requires Progress(i * 4096, sect0, left0, nFirst, f, count) && left0 > 0
    requires SameOutside(d, dev.disk[..], smap0, nSmap)
    requires MapMarked(d, dev.disk[..], smap0, nSmap, f, f + count - left0, true)
    requires forall s | smap0 + i <= s < |d| :: dev.disk[s] == d[s]
    modifies dev.disk, dev.fsbuf
    ensures Progress((i + 1) * 4096, sect, left, nFirst, f, count)
    ensures SameOutside(d, dev.disk[..], smap0, nSmap)
    ensures MapMarked(d, dev.disk[..], smap0, nSmap, f, f + count - left, true)
    ensures forall s | smap0 + i < s < |d| :: dev.disk[s] == d[s]
  {
    hide Bit, Bits, IsFirstFree, Uniform, ByteMarked, MapMarked, SectorMarked;
    ghost var o := d[smap0 + i];
    ghost var d1 := dev.disk[..];
    dev.RdSect(smap0 + i);
    sect, left := sect0, left0;
    SectorUnmarked(o, i, f, f + count - left0, true);
    var j := 0;
    while j < 512 && left > 0
      invariant 0 <= j <= 512 && dev.disk[..] == d1
      invariant Progress(i * 4096 + j * 8, sect, left, nFirst, f, count)
      invariant sect == 0 ==> dev.fsbuf[..512] == o
      invariant SectorMarked(o, dev.fsbuf[..512], i, f, f + count - left, true)
      invariant sect0 != 0 ==> sect != 0
      invariant f + count - left0 <= f + count - left
    {
      var k := 0;
      assert dev.fsbuf[j] == dev.fsbuf[..512][j];
      if sect == 0 {
        if dev.fsbuf[j] == 0xFF {
          FullByteSkipped(d, smap0, nSmap, i, j, f);
          j := j + 1;
          continue;
        }
        k := ClearBitOf(dev.fsbuf[j]);
        FreeBitFound(d, smap0, nSmap, i, j, dev.fsbuf[j], k, f);
        sect := (i * SECTOR_SIZE + j) * 8 + k - 1 + nFirst;
      }
      ghost var x, mid := dev.fsbuf[..512], f + count - left;
      ClearAhead(d, smap0, nSmap, i, j, f, count);
      MarkedBits(o, x, i, j, f, mid, true);
      forall y | k <= y < 8 && y < k + left ensures !Bit(x[j], y) {
        assert mid <= Pos(i, j, y) < f + count;
      }
      var b: byte;
      b, left := FillBits(dev.fsbuf[j], k, left);
      dev.fsbuf[j] := b;
      SectorExtend(o, x, i, j, b, k, f, mid, f + count - left, true);
      assert dev.fsbuf[..512] == x[j := b];
      j := j + 1;
    }
    if sect != 0 {
      MapExtend(d, d1, smap0, nSmap, i, dev.fsbuf[..512], f, f + count - left0, f + count - left, true);
      dev.WrSect(smap0 + i);
    }
  }

  lemma MarkedBits(o: seq<byte>, x: seq<byte>, i: nat, j: nat, lo: nat, mid: nat, v: bool)
    requires |o| == |x| == 512 && j < 512 && SectorMarked(o, x, i, lo, mid, v)
    ensures forall k | 0 <= k < 8 && mid <= Pos(i, j, k) :: Bit(x[j], k) == Bit(o[j], k)
  {
    assert ByteMarked(o[j], x[j], Pos(i, j, 0), lo, mid, v);
  }
}
