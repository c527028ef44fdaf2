/** Clearing a run of bits of the sector map when a file is removed: first byte, whole bytes,
    last byte, moving on to the next sector of the map as needed. */
module FsFree {
  import opened FsBits
  import opened FsDevice
  import opened FsMaps

  /** The disk as it will be once the buffer is written back to sector s. */
  function WrittenBack(d: seq<Sector>, buf: seq<byte>, s: nat): (r: seq<Sector>)
    requires s < |d| && |buf| >= 512
  {
    d[s := buf[..512]]
  }

  lemma ZeroedByte(o: byte)
    ensures ByteMarked(o, 0, 0, 0, 8, false)
  {}

  lemma LastByte(o: byte, n: nat)
    requires n < 8
    ensures ByteMarked(o, o & HighBits(n), 0, 0, n, false)
    ensures n == 0 ==> o & HighBits(n) == o
  {
    hide Bit, HighBits;
    forall i | 0 <= i < 8 ensures Bit(o & HighBits(n), i) == if 0 <= 0 + i < n then false else Bit(o, i) {
      KeepHighBits(o, n, i);
    }
    KeepAll(o);
  }

  lemma KeepAll(o: byte)
    ensures o & HighBits(0) == o
  {}

  lemma MaskedBits(o: byte, n: nat)
    requires n < 8 && forall i | 0 <= i < n :: Bit(o, i)
    ensures o & !HighBits(n) == !HighBits(n)
  {
    assert n > 0 ==> Bit(o, 0);
    assert n > 1 ==> Bit(o, 1);
    assert n > 2 ==> Bit(o, 2);
    assert n > 3 ==> Bit(o, 3);
    assert n > 4 ==> Bit(o, 4);
    assert n > 5 ==> Bit(o, 5);
    assert n > 6 ==> Bit(o, 6);
  }

  lemma SameBits(o: byte, x: byte)
    requires forall i | 0 <= i < 8 :: Bit(o, i) == Bit(x, i)
    ensures o == x
  {
    assert Bit(o, 0) == Bit(x, 0) && Bit(o, 1) == Bit(x, 1) && Bit(o, 2) == Bit(x, 2) && Bit(o, 3) == Bit(x, 3);
    assert Bit(o, 4) == Bit(x, 4) && Bit(o, 5) == Bit(x, 5) && Bit(o, 6) == Bit(x, 6) && Bit(o, 7) == Bit(x, 7);
  }

  /** The run of bits from lo is cleared up to hi; nothing else of the disk is different. The
      sector behind the map may be rewritten, with what it holds. */
  predicate Cleared(d: seq<Sector>, v: seq<Sector>, smap0: nat, nSmap: nat, lo: nat, hi: nat)
    requires smap0 + nSmap < |d|
  {
    SameOutside(d, v, smap0, nSmap + 1) && MapMarked(d, v, smap0, nSmap + 1, lo, hi, false)
  }

  /** Clearing the bits from bit k of byte j of sector i on. */
  lemma ClearByte(d: seq<Sector>, v: seq<Sector>, smap0: nat, nSmap: nat, i: nat, j: nat, b: byte,
                  k: nat, lo: nat, mid: nat, hi: nat)
    requires smap0 + nSmap < |d| && Cleared(d, v, smap0, nSmap, lo, mid)
    requires i <= nSmap && j < 512 && k < 8 && lo <= mid == Pos(i, j, k) && mid <= hi <= Pos(i, j, 0) + 8
    requires ByteMarked(v[smap0 + i][j], b, 0, k, k + hi - mid, false)
    ensures Cleared(d, v[smap0 + i := v[smap0 + i][j := b]], smap0, nSmap, lo, hi)
  {
    hide ByteMarked, SectorMarked;
    assert MapSectorMarked(d, v, smap0, i, lo, mid, false);
    SectorExtend(d[smap0 + i], v[smap0 + i], i, j, b, k, lo, mid, hi, false);
    MapExtend(d, v, smap0, nSmap + 1, i, v[smap0 + i][j := b], lo, mid, hi, false);
  }

  /** A bit of the run that has not been cleared yet is still set. */
  lemma StillSet(d: seq<Sector>, v: seq<Sector>, smap0: nat, nSmap: nat, i: nat, j: nat, b: byte,
                 lo: nat, mid: nat, count: nat)
    requires smap0 + nSmap < |d| && Cleared(d, v, smap0, nSmap, lo, mid) && i < nSmap && j < 512
    requires Uniform(Bits(d, smap0, nSmap), lo, count, true) && lo <= mid && b == v[smap0 + i][j]
    ensures forall x | 0 <= x < 8 && mid <= Pos(i, j, 0) + x < lo + count :: Bit(b, x)
  {
    hide Bit, Bits;
    assert MapSectorMarked(d, v, smap0, i, lo, mid, false);
    assert ByteMarked(d[smap0 + i][j], v[smap0 + i][j], Pos(i, j, 0), lo, mid, false);
    forall x | 0 <= x < 8 && mid <= Pos(i, j, 0) + x < lo + count ensures Bit(b, x) {
      BitsAt(d, smap0, nSmap, i, j, x);
    }
  }

  /** Clears bits of b from bit k on until the byte ends or `left` bits are cleared. */
  method ClearRun(b: byte, k: nat, left: nat) returns (b': byte, left': nat)
    requires k < 8 && forall x | k <= x < 8 && x < k + left :: Bit(b, x)
    ensures left' == if left <= 8 - k then 0 else left - (8 - k)
    ensures ByteMarked(b, b', 0, k, k + left - left', false)
  {
    hide Bit, One;
    b', left' := b, left;
    var x := k;
    while x < 8 && left' > 0
      invariant k <= x <= 8 && left' == left - (x - k)
      invariant ByteMarked(b, b', 0, k, x, false)
    {
      assert Bit(b', x);
      ghost var b1 := b';
      b' := b' & !One(x);
      forall y | 0 <= y < 8 ensures Bit(b', y) == if k <= 0 + y < x + 1 then false else Bit(b, y) {
        ClearBit(b1, x, y);
      }
      left' := left' - 1;
      x := x + 1;
    }
  }

  /** Division by 8 that cuts toward zero. */
  function Div8(x: int): int {
    if x >= 0 then x / 8 else -(-x / 8)
  }

  /** Writes the current sector back and loads the one behind it. */
  method NextSector(dev: Device, s: nat)
    requires dev.Valid() && s + 1 < dev.disk.Length
    modifies dev.disk, dev.fsbuf
    ensures dev.disk[..] == old(WrittenBack(dev.disk[..], dev.fsbuf[..], s))
    ensures WrittenBack(dev.disk[..], dev.fsbuf[..], s + 1) == dev.disk[..]
  {
    assert dev.fsbuf[..][..512] == dev.fsbuf[..512];
    dev.WrSect(s);
    dev.RdSect(s + 1);
    assert dev.fsbuf[..][..512] == dev.fsbuf[..512];
  }

  /** Clears the `count` bits of the sector map from bit bitIdx on, for any start and length.
      All of them must be set, and there is a sector behind the map. */
  method FreeBits(dev: Device, smap0: nat, nSmap: nat, bitIdx: nat, count: nat)
    requires dev.Valid() && smap0 + nSmap < dev.disk.Length
    requires Uniform(Bits(dev.disk[..], smap0, nSmap), bitIdx, count, true)
    modifies dev.disk, dev.fsbuf
    ensures SameOutside(old(dev.disk[..]), dev.disk[..], smap0, nSmap)
    ensures Bits(dev.disk[..], smap0, nSmap) == SetRange(old(Bits(dev.disk[..], smap0, nSmap)), bitIdx, count, false)
  {
    hide Bit, Bits, Cleared, ByteMarked, Uniform, HighBits, SectorMarked;
    ghost var d := dev.disk[..];
    UniformEnd(d, smap0, nSmap, bitIdx, count);
    var byteIdx := bitIdx / 8;
    var byteCnt := Div8(count - (8 - bitIdx % 8));
    var s := smap0 + byteIdx / SECTOR_SIZE;
    var left := ClearFirstByte(dev, smap0, nSmap, bitIdx, count, s);
    ghost var hi := bitIdx + count - left;
    var i := byteIdx % SECTOR_SIZE + 1;
    s, i, left := ClearWholeBytes(dev, smap0, nSmap, s, i, byteCnt, left, d, bitIdx, count);
    ClearLastByte(dev, smap0, nSmap, s, i, left, d, bitIdx, count);
    ClearedRange(d, dev.disk[..], smap0, nSmap, bitIdx, count);
  }

  /** Clears the last bits, fewer than a byte, from byte i of the buffered sector s on. */
  method ClearLastByte(dev: Device, smap0: nat, nSmap: nat, s0: nat, i0: nat, left: nat,
                       ghost d: seq<Sector>, ghost lo: nat, ghost count: nat)
    requires dev.Valid() && smap0 + nSmap < dev.disk.Length == |d| && left <= count && left < 8 && lo + count <= nSmap * 4096
    requires Uniform(Bits(d, smap0, nSmap), lo, count, true)
    requires smap0 <= s0 <= smap0 + nSmap && 0 < i0 <= 512 && (s0 == smap0 + nSmap ==> left == 0 && i0 < 512)
    requires Cleared(d, WrittenBack(dev.disk[..], dev.fsbuf[..], s0), smap0, nSmap, lo, lo + count - left)
    requires left > 0 ==> lo + count - left == (s0 - smap0) * 4096 + i0 * 8
    modifies dev.disk, dev.fsbuf
    ensures Cleared(d, dev.disk[..], smap0, nSmap, lo, lo + count)
  {
    hide Bit, Bits, Cleared, ByteMarked, Uniform, HighBits;
    var s, i := s0, i0;
    if i == SECTOR_SIZE {
      i := 0;
      NextSector(dev, s);
      s := s + 1;
    }
    ghost var v := WrittenBack(dev.disk[..], dev.fsbuf[..], s);
    var b := dev.fsbuf[i];
    assert b == v[s][i];
    LastByte(b, left);
    if left > 0 {
      StillSet(d, v, smap0, nSmap, s - smap0, i, b, lo, lo + count - left, count);
      ClearByte(d, v, smap0, nSmap, s - smap0, i, b & HighBits(left), 0, lo, lo + count - left, lo + count);
    }
    MaskedBits(b, left);
    assert b & !HighBits(left) == !HighBits(left);
    dev.fsbuf[i] := b & HighBits(left);
    assert dev.fsbuf[..512] == v[s][i := b & HighBits(left)];
    dev.WrSect(s);
    assert dev.disk[..] == v[s := v[s][i := b & HighBits(left)]];
    if left == 0 {
      assert v[s][i := b] == v[s];
      assert dev.disk[..] == v;
    }
  }

  method ClearFirstByte(dev: Device, smap0: nat, nSmap: nat, bitIdx: nat, count: nat, s: nat) returns (left: nat)
    requires dev.Valid() && smap0 + nSmap < dev.disk.Length && bitIdx + count <= nSmap * 4096
    requires Uniform(Bits(dev.disk[..], smap0, nSmap), bitIdx, count, true)
    requires s == smap0 + bitIdx / 8 / 512
    modifies dev.fsbuf
    ensures left == if count <= 8 - bitIdx % 8 then 0 else count - (8 - bitIdx % 8)
    ensures Cleared(dev.disk[..], WrittenBack(dev.disk[..], dev.fsbuf[..], s), smap0, nSmap, bitIdx, bitIdx + count - left)
  {
    hide Bit, Bits, Cleared, ByteMarked, Uniform, SectorMarked;
    ghost var d := dev.disk[..];
    dev.RdSect(s);
    ghost var sect := s - smap0;
    var i := bitIdx / 8 % SECTOR_SIZE;
    assert bitIdx == Pos(sect, i, bitIdx % 8);
    NothingCleared(d, smap0, nSmap, bitIdx);
    assert WrittenBack(d, dev.fsbuf[..], s) == d by {
      assert dev.fsbuf[..][..512] == dev.fsbuf[..512];
    }
    assert dev.fsbuf[i] == d[s][i] by {
      assert dev.fsbuf[i] == dev.fsbuf[..512][i];
    }
    if count > 0 {
      StillSet(d, d, smap0, nSmap, sect, i, dev.fsbuf[i], bitIdx, bitIdx, count);
    }
    var b: byte;
    b, left := ClearRun(dev.fsbuf[i], bitIdx % 8, count);
    ClearByte(d, d, smap0, nSmap, sect, i, b, bitIdx % 8, bitIdx, bitIdx, bitIdx + count - left);
    dev.fsbuf[i] := b;
    assert dev.fsbuf[..][..512] == d[s][i := b];
  }

  /** Clears byteCnt whole bytes from byte i of the buffered sector s on. */
  method ClearWholeBytes(dev: Device, smap0: nat, nSmap: nat, s0: nat, i0: nat, byteCnt: int, left0: nat,
                         ghost d: seq<Sector>, ghost lo: nat, ghost count: nat)
    returns (s: nat, i: nat, left: nat)
    requires dev.Valid() && smap0 + nSmap < dev.disk.Length == |d| && left0 <= count && lo + count <= nSmap * 4096
    requires Uniform(Bits(d, smap0, nSmap), lo, count, true)
    requires smap0 <= s0 <= smap0 + nSmap && 0 < i0 <= 512 && (s0 == smap0 + nSmap ==> left0 == 0 && i0 < 512)
    requires Cleared(d, WrittenBack(dev.disk[..], dev.fsbuf[..], s0), smap0, nSmap, lo, lo + count - left0)
    requires if left0 == 0 then byteCnt <= 0 else byteCnt == left0 / 8 && lo + count - left0 == (s0 - smap0) * 4096 + i0 * 8
    modifies dev.disk, dev.fsbuf
    ensures smap0 <= s <= smap0 + nSmap && 0 < i <= 512 && (s == smap0 + nSmap ==> left == 0 && i < 512)
    ensures left == left0 % 8
    ensures Cleared(d, WrittenBack(dev.disk[..], dev.fsbuf[..], s), smap0, nSmap, lo, lo + count - left)
    ensures left > 0 ==> lo + count - left == (s - smap0) * 4096 + i * 8
  {
    hide Bit, Bits, Cleared, ByteMarked, Uniform, SectorMarked;
    s, i, left := s0, i0, left0;
    var k := 0;
    while k < byteCnt
      invariant 0 <= k && (left0 > 0 ==> k <= byteCnt && left == left0 - 8 * k) && (left0 == 0 ==> left == 0)
      invariant smap0 <= s <= smap0 + nSmap && 0 < i <= 512
      invariant left0 > 0 ==> lo + count - left == (s - smap0) * 4096 + i * 8
      invariant s == smap0 + nSmap ==> left0 == 0 && i < 512
      invariant Cleared(d, WrittenBack(dev.disk[..], dev.fsbuf[..], s), smap0, nSmap, lo, lo + count - left)
    {
      if i == SECTOR_SIZE {
        i := 0;
        NextSector(dev, s);
        s := s + 1;
      }
      ghost var v := WrittenBack(dev.disk[..], dev.fsbuf[..], s);
      assert dev.fsbuf[i] == v[s][i];
      StillSet(d, v, smap0, nSmap, s - smap0, i, dev.fsbuf[i], lo, lo + count - left, count);
      FullByte(dev.fsbuf[i]);
      assert dev.fsbuf[i] == 0xFF;
      ZeroedByte(v[s][i]);
      ClearByte(d, v, smap0, nSmap, s - smap0, i, 0, 0, lo, lo + count - left, lo + count - left + 8);
      dev.fsbuf[i] := 0;
      assert WrittenBack(dev.disk[..], dev.fsbuf[..], s) == v[s := v[s][i := 0]];
      k, i, left := k + 1, i + 1, left - 8;
    }
  }

  lemma ClearedRange(d: seq<Sector>, d': seq<Sector>, smap0: nat, nSmap: nat, lo: nat, count: nat)
    requires smap0 + nSmap < |d| && lo + count <= nSmap * 4096
    requires Cleared(d, d', smap0, nSmap, lo, lo + count)
    ensures SameOutside(d, d', smap0, nSmap)
    ensures Bits(d', smap0, nSmap) == SetRange(Bits(d, smap0, nSmap), lo, count, false)
  {
    hide Bit, Bits;
    MarkedRange(d, d', smap0, nSmap, lo, count, false);
    assert MapSectorMarked(d, d', smap0, nSmap, lo, lo + count, false);
    var o, x := d[smap0 + nSmap], d'[smap0 + nSmap];
    forall j | 0 <= j < 512 ensures x[j] == o[j] {
      assert ByteMarked(o[j], x[j], Pos(nSmap, j, 0), lo, lo + count, false);
      SameBits(o[j], x[j]);
    }
    assert x == o;
  }

  lemma NothingCleared(d: seq<Sector>, smap0: nat, nSmap: nat, lo: nat)
    requires smap0 + nSmap < |d|
    ensures Cleared(d, d, smap0, nSmap, lo, lo)
  {
    NothingMarked(d, smap0, nSmap + 1, lo, false);
  }

  lemma UniformEnd(d: seq<Sector>, smap0: nat, nSmap: nat, lo: nat, count: nat)
    requires smap0 + nSmap <= |d| && Uniform(Bits(d, smap0, nSmap), lo, count, true)
    ensures lo + count <= nSmap * 4096
  {}

  // ---------------------------------------------------------------- freeing what was allocated

  /** The bits of a map determine its sectors. */
  lemma BitsDetermine(d: seq<Sector>, d': seq<Sector>, s0: nat, n: nat)
    requires s0 + n <= |d| == |d'| && Bits(d, s0, n) == Bits(d', s0, n)
    ensures forall s | s0 <= s < s0 + n :: d'[s] == d[s]
  {
    hide Bit, Bits;
    forall s | s0 <= s < s0 + n ensures d'[s] == d[s] {
      forall j | 0 <= j < 512 ensures d'[s][j] == d[s][j] {
        forall k | 0 <= k < 8 ensures Bit(d[s][j], k) == Bit(d'[s][j], k) {
          BitsAt(d, s0, n, s - s0, j, k);
          BitsAt(d', s0, n, s - s0, j, k);
        }
        SameBits(d[s][j], d'[s][j]);
      }
    }
  }

  /** Freeing the run of bits that was allocated leaves the disk as it was before both. */
  lemma FreeUndoesAlloc(d: seq<Sector>, d1: seq<Sector>, d2: seq<Sector>, smap0: nat, nSmap: nat, f: nat, count: nat)
    requires smap0 + nSmap <= |d| && Uniform(Bits(d, smap0, nSmap), f, count, false)
    requires SameOutside(d, d1, smap0, nSmap) && SameOutside(d1, d2, smap0, nSmap)
    requires Bits(d1, smap0, nSmap) == SetRange(Bits(d, smap0, nSmap), f, count, true)
    requires Bits(d2, smap0, nSmap) == SetRange(Bits(d1, smap0, nSmap), f, count, false)
    ensures d2 == d
  {
    hide Bits;
    assert Bits(d2, smap0, nSmap) == Bits(d, smap0, nSmap);
    BitsDetermine(d, d2, smap0, nSmap);
  }
}
