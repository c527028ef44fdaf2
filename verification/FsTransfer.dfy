/** Reading and writing the bytes of a file, a buffer full of sectors at a time. */
module FsTransfer {
  import opened FsBits
  import opened FsDevice
  import opened FsInodes
  import opened FsDirectory

  // ---------------------------------------------------------------- the disk as bytes

  /** The bytes of the disk, one sector after the other. */
  function Flat(d: seq<Sector>): (r: seq<byte>)
    ensures |r| == 512 * |d|
  {
    seq(512 * |d|, a requires 0 <= a < 512 * |d| => d[a / 512][a % 512])
  }

  lemma FlatSector(d: seq<Sector>, s: nat)
    requires s < |d|
    ensures Flat(d)[512 * s..512 * s + 512] == d[s]
  {
    forall j | 0 <= j < 512 ensures Flat(d)[512 * s..512 * s + 512][j] == d[s][j] {
      var a := 512 * s + j;
      assert a / 512 == s && a % 512 == j;
    }
  }

  /** Disks with the same bytes in a sector agree on that sector. */
  lemma SameSector(d: seq<Sector>, d': seq<Sector>, s: nat)
    requires |d| == |d'| && s < |d| && forall a | 512 * s <= a < 512 * s + 512 :: Flat(d')[a] == Flat(d)[a]
    ensures d'[s] == d[s]
  {
    FlatSector(d, s);
    FlatSector(d', s);
    assert Flat(d')[512 * s..512 * s + 512] == Flat(d)[512 * s..512 * s + 512];
  }

  lemma FlatUpdate(d: seq<Sector>, s: nat, x: Sector)
    requires s < |d|
    ensures Flat(d[s := x]) == Splice(Flat(d), 512 * s, x)
  {
    var y, z := Flat(d[s := x]), Splice(Flat(d), 512 * s, x);
    forall a | 0 <= a < 512 * |d| ensures y[a] == z[a] {
      if a / 512 == s {
        assert a % 512 == a - 512 * s;
      } else {
        assert !(512 * s <= a < 512 * s + 512);
      }
    }
  }

  /** Reads n sectors from sector s to the start of the buffer. */
  method RdSects(dev: Device, s: nat, n: nat)
    requires dev.Valid() && s + n <= dev.disk.Length && 512 * n <= dev.fsbuf.Length
    modifies dev.fsbuf
    ensures dev.fsbuf[..512 * n] == Flat(dev.disk[..])[512 * s..512 * (s + n)]
    ensures dev.fsbuf[512 * n..] == old(dev.fsbuf[512 * n..])
  {
    hide Flat;
    ghost var d, b := dev.disk[..], dev.fsbuf[..];
    for k := 0 to n
      invariant dev.fsbuf[..512 * k] == Flat(d)[512 * s..512 * (s + k)]
      invariant dev.fsbuf[512 * k..] == b[512 * k..]
    {
      FlatSector(d, s + k);
      RdSectTo(dev, s + k, 512 * k);
      assert Flat(d)[512 * s..512 * (s + k + 1)] == Flat(d)[512 * s..512 * (s + k)] + Flat(d)[512 * (s + k)..512 * (s + k) + 512];
      assert dev.fsbuf[..512 * (k + 1)] == dev.fsbuf[..512 * k] + dev.fsbuf[512 * k..512 * k + 512];
    }
  }

  method RdSectTo(dev: Device, s: nat, o: nat)
    requires dev.Valid() && s < dev.disk.Length && o + 512 <= dev.fsbuf.Length
    modifies dev.fsbuf
    ensures dev.fsbuf[o..o + 512] == dev.disk[s]
    ensures dev.fsbuf[..o] == old(dev.fsbuf[..o]) && dev.fsbuf[o + 512..] == old(dev.fsbuf[o + 512..])
  {
    for i := 0 to 512
      invariant dev.fsbuf[o..o + i] == dev.disk[s][..i]
      invariant dev.fsbuf[..o] == old(dev.fsbuf[..o]) && dev.fsbuf[o + 512..] == old(dev.fsbuf[o + 512..])
    {
      dev.fsbuf[o + i] := dev.disk[s][i];
    }
  }

  /** Writes the start of the buffer to n sectors from sector s. */
  method WrSects(dev: Device, s: nat, n: nat)
    requires dev.Valid() && s + n <= dev.disk.Length && 512 * n <= dev.fsbuf.Length
    modifies dev.disk
    ensures Flat(dev.disk[..]) == Splice(Flat(old(dev.disk[..])), 512 * s, dev.fsbuf[..512 * n])
  {
    hide Flat, Splice;
    ghost var d := dev.disk[..];
    for k := 0 to n
      invariant Flat(dev.disk[..]) == Splice(Flat(d), 512 * s, dev.fsbuf[..512 * k])
    {
      ghost var d1 := dev.disk[..];
      var x: Sector := dev.fsbuf[512 * k..512 * k + 512];
      FlatUpdate(d1, s + k, x);
      SpliceTwice(Flat(d), 512 * s, dev.fsbuf[..512 * k], x);
      assert dev.fsbuf[..512 * (k + 1)] == dev.fsbuf[..512 * k] + x;
      dev.disk[s + k] := x;
      assert dev.disk[..] == d1[s + k := x];
    }
  }

  /** Writing back a stretch of bytes with a part of it changed changes just that part. */
  lemma SpliceInside(f: seq<byte>, a: nat, n: nat, off: nat, b: seq<byte>, x: seq<byte>)
    requires a + n <= |f| && off + |b| <= n && x == Splice(f[a..a + n], off, b)
    ensures Splice(f, a, x) == Splice(f, a + off, b)
  {
    hide Splice;
    var y, z := Splice(f, a, x), Splice(f, a + off, b);
    forall i | 0 <= i < |f| ensures y[i] == z[i] {
      if a <= i < a + n {
        assert x[i - a] == if off <= i - a < off + |b| then b[i - a - off] else f[a..a + n][i - a];
      }
    }
  }

  // ---------------------------------------------------------------- do_rdwt

  /** What a pass over s sectors in steps of `chunk` sectors touches. */
  function Sweep(s: int, chunk: nat): (n: nat)
    requires chunk > 0
    ensures s <= n && (s <= 0 ==> n == 0) && (s > 0 ==> n < s + chunk)
    decreases s
  {
    if s <= 0 then 0 else chunk + Sweep(s - chunk, chunk)
  }

  /** Sectors from the one that holds byte pos to the one that holds byte posEnd. */
  function SectorCount(pos: nat, posEnd: nat): int {
    posEnd / 512 - pos / 512 + 1
  }

  /** Where the request ends as far as the limit is concerned: the size of the file for
      reading, the size of its extent for writing. */
  function PosEnd(pos: nat, len: nat, limit: nat): nat { Min(pos + len, limit) }

  /** How many sectors one request touches. */
  function Touched(pos: nat, len: nat, limit: nat, bufSects: nat): (n: nat)
    requires bufSects > 0
  {
    var s := SectorCount(pos, PosEnd(pos, len, limit));
    if s <= 0 then 0 else Sweep(s, Min(s, bufSects))
  }

  /** How many bytes one request transfers. */
  function Transferred(pos: nat, len: nat, limit: nat, bufSects: nat): (n: nat)
    requires bufSects > 0
    ensures n <= len
  {
    var t := Touched(pos, len, limit, bufSects);
    if t == 0 then 0 else Min(len, 512 * t - pos % 512)
  }

  /** What a pass touches is a whole number of steps. */
  lemma {:induction false} SweepRounds(s: int, chunk: nat) returns (j: nat)
    requires chunk > 0
    ensures Sweep(s, chunk) == j * chunk
    decreases s
  {
    if s <= 0 {
      j := 0;
    } else {
      var i := SweepRounds(s - chunk, chunk);
      j := i + 1;
      assert j * chunk == i * chunk + chunk;
    }
  }

  /** The sectors that are touched are those from the first byte's to the end's if they fit into the
      buffer; if not, they are rounded up to whole buffers. */
  lemma TouchedExactly(pos: nat, len: nat, limit: nat, bufSects: nat)
    requires bufSects > 0 && pos <= limit
    ensures var s, t := PosEnd(pos, len, limit) / 512 - pos / 512 + 1, Touched(pos, len, limit, bufSects);
            && s > 0
            && (s <= bufSects ==> t == s)
            && (s > bufSects ==> s <= t < s + bufSects && exists j: nat :: t == j * bufSects)
  {
    var s := SectorCount(pos, PosEnd(pos, len, limit));
    var j := SweepRounds(s, Min(s, bufSects));
    if s <= bufSects {
      assert Sweep(s - s, s) == 0;
    }
  }

  /** A request transfers all it asks for and stays within the limit, if and only if it asks
      for no more than the limit allows. Past the limit it is not cut short there. */
  lemma TransferredWithin(pos: nat, len: nat, limit: nat, bufSects: nat)
    requires bufSects > 0 && pos <= limit
    ensures pos + len <= limit ==> Transferred(pos, len, limit, bufSects) == len
    ensures pos + Transferred(pos, len, limit, bufSects) <= limit <==> pos + len <= limit
  {
    var s := SectorCount(pos, PosEnd(pos, len, limit));
    var t := Touched(pos, len, limit, bufSects);
    assert s >= 1 && t >= s;
    assert 512 * t >= 512 * s;
    assert 512 * s - pos % 512 > PosEnd(pos, len, limit) - pos;
  }

  /** A request gets at least what it asks for within the limit. */
  lemma TransferredEnough(pos: nat, len: nat, limit: nat, bufSects: nat)
    requires bufSects > 0 && pos <= limit
    ensures Transferred(pos, len, limit, bufSects) >= Min(len, limit - pos)
  {
    var s := SectorCount(pos, PosEnd(pos, len, limit));
    var t := Touched(pos, len, limit, bufSects);
    assert s >= 1 && t >= s;
    assert 512 * t >= 512 * s;
  }

  /** f with b stored from address a on. */
  function Put(f: seq<byte>, a: nat, b: seq<byte>): (r: seq<byte>)
    requires b == [] || a + |b| <= |f|
    ensures |r| == |f|
  {
    if b == [] then f else Splice(f, a, b)
  }

  /** The n bytes of f from address a on. */
  function Cut(f: seq<byte>, a: nat, n: nat): (r: seq<byte>)
    requires n == 0 || a + n <= |f|
    ensures |r| == n
  {
    if n == 0 then [] else f[a..a + n]
  }

  lemma PutMore(f: seq<byte>, a: nat, b: seq<byte>, x: seq<byte>)
    requires b + x == [] || a + |b| + |x| <= |f|
    ensures Put(Put(f, a, b), a + |b|, x) == Put(f, a, b + x)
  {
    hide Splice;
    if b == [] {
      assert b + x == x;
    } else if x == [] {
      assert b + x == b;
    } else {
      SpliceTwice(f, a, b, x);
    }
  }

  /** memcpy between two buffers */
  method CopyBytes(to: array<byte>, o: nat, from: array<byte>, o': nat, n: nat)
    requires to != from && o + n <= to.Length && o' + n <= from.Length
    modifies to
    ensures to[..] == Put(old(to[..]), o, from[o'..o' + n])
  {
    ghost var b := to[..];
    for k := 0 to n
      invariant to[..] == Put(b, o, from[o'..o' + k])
    {
      to[o + k] := from[o' + k];
    }
  }

  /** One turn of the loop: reads `chunk` sectors from sector i, copies `bytes` bytes from or
      to the user's buffer, and when writing writes the sectors back. */
  method TransferChunk(dev: Device, i: nat, chunk: nat, off: nat, read: bool, buf: array<byte>, n: nat, bytes: nat)
    requires dev.Valid() && buf != dev.fsbuf && buf as object != dev.disk && n + bytes <= buf.Length
    requires i + chunk <= dev.disk.Length && 512 * chunk <= dev.fsbuf.Length && off + bytes <= 512 * chunk
    modifies dev.disk, dev.fsbuf, buf
    ensures read ==> dev.disk[..] == old(dev.disk[..])
    ensures read ==> buf[..] == Put(old(buf[..]), n, Cut(Flat(old(dev.disk[..])), 512 * i + off, bytes))
    ensures !read ==> buf[..] == old(buf[..])
    ensures !read ==> Flat(dev.disk[..]) == Put(Flat(old(dev.disk[..])), 512 * i + off, old(buf[n..n + bytes]))
  {
    hide Flat, Put;
    ghost var f, b := Flat(dev.disk[..]), buf[n..n + bytes];
    RdSects(dev, i, chunk);
    ghost var s := dev.fsbuf[..];
    assert s[..512 * chunk] == dev.fsbuf[..512 * chunk];
    if read {
      CopyBytes(buf, n, dev.fsbuf, off, bytes);
      CutPart(f, 512 * i, 512 * chunk, off, bytes, s);
      assert dev.fsbuf[off..off + bytes] == s[off..off + bytes];
    } else {
      CopyBytes(dev.fsbuf, off, buf, n, bytes);
      PutInside(f, 512 * i, 512 * chunk, off, b, s);
      WrSects(dev, i, chunk);
      assert dev.fsbuf[..512 * chunk] == dev.fsbuf[..][..512 * chunk];
    }
  }

  lemma CutPart(f: seq<byte>, a: nat, n: nat, off: nat, bytes: nat, s: seq<byte>)
    requires a + n <= |f| && n <= |s| && off + bytes <= n && s[..n] == f[a..a + n]
    ensures s[off..off + bytes] == Cut(f, a + off, bytes)
  {
    var x, y := s[off..off + bytes], Cut(f, a + off, bytes);
    forall i | 0 <= i < bytes ensures x[i] == y[i] {
      assert s[..n][off + i] == f[a..a + n][off + i];
    }
  }

  lemma PutInside(f: seq<byte>, a: nat, n: nat, off: nat, b: seq<byte>, s: seq<byte>)
    requires a + n <= |f| && n <= |s| && off + |b| <= n && s[..n] == f[a..a + n]
    ensures Splice(f, a, Put(s, off, b)[..n]) == Put(f, a + off, b)
  {
    hide Splice;
    var x := Put(s, off, b)[..n];
    assert x == Put(f[a..a + n], off, b);
    if b == [] {
      assert Splice(f, a, x) == f;
    } else {
      SpliceInside(f, a, n, off, b, x);
    }
  }

  /** n bytes have been read from, or written to, address a of the disk; b and d are the
      user's buffer and the disk before. */
  predicate InTransfer(read: bool, d: seq<Sector>, d': seq<Sector>, b: seq<byte>, b': seq<byte>, a: nat, n: nat)
    requires n <= |b| && (n > 0 ==> a + n <= 512 * |d|)
  {
    if read then d' == d && b' == Put(b, 0, Cut(Flat(d), a, n))
    else b' == b && Flat(d') == Put(Flat(d), a, b[..n])
  }

  method ContinueTransfer(dev: Device, i: nat, chunk: nat, off: nat, read: bool, buf: array<byte>, n: nat, bytes: nat,
                          ghost d: seq<Sector>, ghost b: seq<byte>, ghost a: nat)
    requires dev.Valid() && buf != dev.fsbuf && buf as object != dev.disk && n + bytes <= buf.Length == |b|
    requires i + chunk <= dev.disk.Length == |d| && 512 * chunk <= dev.fsbuf.Length && off + bytes <= 512 * chunk
    requires n + bytes > 0 ==> a + n + bytes <= 512 * |d|
    requires bytes > 0 ==> 512 * i + off == a + n
    requires InTransfer(read, d, dev.disk[..], b, buf[..], a, n)
    modifies dev.disk, dev.fsbuf, buf
    ensures InTransfer(read, d, dev.disk[..], b, buf[..], a, n + bytes)
  {
    hide Flat, Put, Cut;
    TransferChunk(dev, i, chunk, off, read, buf, n, bytes);
    if read {
      ReadMore(Flat(d), b, a, 512 * i + off, n, bytes);
    } else {
      WriteMore(Flat(d), b, a, 512 * i + off, n, bytes);
    }
  }

  /** Reads or writes `len` bytes at position pos of the file whose extent begins at sector
      `start`. For reading the limit is the size of the file, for writing the size of its
      extent. All sectors that are touched must exist. */
  method DoRdWt(dev: Device, start: nat, pos: nat, limit: nat, read: bool, buf: array<byte>, len: nat) returns (n: nat)
    requires dev.Valid() && buf != dev.fsbuf && buf as object != dev.disk && len <= buf.Length
    requires start + pos / 512 + Touched(pos, len, limit, dev.fsbuf.Length / 512) <= dev.disk.Length
    modifies dev.disk, dev.fsbuf, buf
    ensures n == Transferred(pos, len, limit, dev.fsbuf.Length / 512)
    ensures n > 0 ==> 512 * start + pos + n <= 512 * dev.disk.Length
    ensures read ==> dev.disk[..] == old(dev.disk[..])
    ensures read ==> buf[..] == Put(old(buf[..]), 0, Cut(Flat(old(dev.disk[..])), 512 * start + pos, n))
    ensures !read ==> buf[..] == old(buf[..])
    ensures !read ==> Flat(dev.disk[..]) == Put(Flat(old(dev.disk[..])), 512 * start + pos, old(buf[..n]))
  {
    hide Flat, Put, Cut, Reached, Sweep, InTransfer;
    ghost var d, b := dev.disk[..], buf[..];
    ghost var a := 512 * start + pos;
    var posEnd := Min(pos + len, limit);
    var off: nat := pos % SECTOR_SIZE;
    var sMin := start + pos / SECTOR_SIZE;
    var sMax := start + posEnd / SECTOR_SIZE;
    var chunk := Min(sMax - sMin + 1, dev.fsbuf.Length / SECTOR_SIZE);
    ghost var t := Touched(pos, len, limit, dev.fsbuf.Length / 512);
    n := 0;
    var left := len;
    var i := sMin;
    NothingTransferred(read, d, b, a);
    NothingReached(pos, len);
    while i <= sMax
      invariant sMin <= i && n <= len && left == len - n && (sMin <= sMax ==> chunk > 0)
      invariant if sMin <= sMax then i - sMin + Sweep(sMax + 1 - i, chunk) == t else i == sMin
      invariant Reached(pos, len, i - sMin, n, off)
      invariant n > 0 ==> a + n <= 512 * dev.disk.Length
      invariant InTransfer(read, d, dev.disk[..], b, buf[..], a, n)
      decreases sMax + 1 - i
    {
      var bytes := Min(left, chunk * SECTOR_SIZE - off);
      SweepStep(sMax + 1 - i, chunk);
      ReachedStep(pos, len, i - sMin, n, off, chunk);
      ContinueTransfer(dev, i, chunk, off, read, buf, n, bytes, d, b, a);
      off := 0;
      n := n + bytes;
      left := left - bytes;
      i := i + chunk;
    }
    ReachedEnd(pos, len, i - sMin, n, off);
    TransferDone(read, d, dev.disk[..], b, buf[..], a, n);
  }

  /** How far the transfer has come after r sectors. */
  predicate Reached(pos: nat, len: nat, r: nat, n: nat, off: nat) {
    if r == 0 then n == 0 && off == pos % 512 else off == 0 && n == Min(len, 512 * r - pos % 512)
  }

  lemma NothingReached(pos: nat, len: nat)
    ensures Reached(pos, len, 0, 0, pos % 512)
  {}

  lemma ReachedStep(pos: nat, len: nat, r: nat, n: nat, off: nat, chunk: nat)
    requires Reached(pos, len, r, n, off) && chunk > 0
    ensures var bytes := Min(len - n, chunk * 512 - off);
            && off < 512 && n <= len && bytes >= 0 && Reached(pos, len, r + chunk, n + bytes, 0)
            && (bytes > 0 ==> 512 * r + off == pos % 512 + n)
            && n + bytes <= 512 * (r + chunk) - pos % 512
  {}

  lemma ReachedEnd(pos: nat, len: nat, r: nat, n: nat, off: nat)
    requires Reached(pos, len, r, n, off)
    ensures n == if r == 0 then 0 else Min(len, 512 * r - pos % 512)
  {}

  lemma SweepStep(s: nat, chunk: nat)
    requires chunk > 0 && s > 0
    ensures Sweep(s, chunk) == chunk + Sweep(s - chunk, chunk)
  {}

  lemma NothingTransferred(read: bool, d: seq<Sector>, b: seq<byte>, a: nat)
    ensures InTransfer(read, d, d, b, b, a, 0)
  {}

  lemma TransferDone(read: bool, d: seq<Sector>, d': seq<Sector>, b: seq<byte>, b': seq<byte>, a: nat, n: nat)
    requires n <= |b| && (n > 0 ==> a + n <= 512 * |d|) && InTransfer(read, d, d', b, b', a, n)
    ensures if read then d' == d && b' == Put(b, 0, Cut(Flat(d), a, n))
            else b' == b && Flat(d') == Put(Flat(d), a, b[..n])
  {}

  lemma ReadMore(f: seq<byte>, b: seq<byte>, a: nat, at: nat, n: nat, bytes: nat)
    requires n + bytes <= |b| && (n + bytes > 0 ==> a + n + bytes <= |f|) && (bytes > 0 ==> at == a + n)
    ensures Put(Put(b, 0, Cut(f, a, n)), n, Cut(f, at, bytes)) == Put(b, 0, Cut(f, a, n + bytes))
  {
    hide Put;
    PutMore(b, 0, Cut(f, a, n), Cut(f, at, bytes));
    assert Cut(f, a, n) + Cut(f, at, bytes) == Cut(f, a, n + bytes);
  }

  lemma WriteMore(f: seq<byte>, b: seq<byte>, a: nat, at: nat, n: nat, bytes: nat)
    requires n + bytes <= |b| && (n + bytes > 0 ==> a + n + bytes <= |f|) && (bytes > 0 ==> at == a + n)
    ensures Put(Put(f, a, b[..n]), at, b[n..n + bytes]) == Put(f, a, b[..n + bytes])
  {
    if bytes == 0 {
      assert b[..n + bytes] == b[..n];
      assert Put(Put(f, a, b[..n]), at, []) == Put(f, a, b[..n]);
      return;
    }
    hide Put;
    PutMore(f, a, b[..n], b[n..n + bytes]);
    assert b[..n] + b[n..n + bytes] == b[..n + bytes];
  }

  /** A write that asks for more than is left of the extent changes the first byte behind it. */
  lemma WritePastExtent(f: seq<byte>, start: nat, pos: nat, b: seq<byte>, capacity: nat, bufSects: nat)
    requires bufSects > 0 && pos <= capacity < pos + |b|
    requires 512 * start + pos + Transferred(pos, |b|, capacity, bufSects) <= |f|
    ensures var n := Transferred(pos, |b|, capacity, bufSects);
            && 512 * start + capacity < |f|
            && Put(f, 512 * start + pos, b[..n])[512 * start + capacity] == b[capacity - pos]
  {
    TransferredWithin(pos, |b|, capacity, bufSects);
    hide Transferred;
    var n := Transferred(pos, |b|, capacity, bufSects);
    assert capacity < pos + n;
  }
}
