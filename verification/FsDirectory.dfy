/** The one directory: entries of sixteen bytes, looking a path up, adding an entry. */
module FsDirectory {
  import opened FsBits
  import opened FsDevice
  import opened FsInodes

  const DIR_ENTRY_SIZE: nat := 16
  const MAX_FILENAME_LEN: nat := 12
  const SLASH: byte := 47

  /** Sectors, and so entries, that the directory's extent has room for. */
  const DIR_SECTS: nat := 2048
  const DIR_SLOTS: nat := 65536

  type Name12 = s: seq<byte> | |s| == 12 witness seq(12, _ => 0)

  /** An entry is unused when its inode number is 0. */
  datatype Entry = Entry(nr: nat, name: Name12)

  const NO_ENTRY: Entry := Entry(0, [0, 0, 0, 0, 0, 0, 0, 0, 0, 0, 0, 0])

  /** Entry number k of a sector. */
  function EntryIn(sec: seq<byte>, k: nat): (x: Entry)
    requires |sec| == 512 && k < 32
    ensures x.nr < LIMIT32
  {
    Entry(Get32(sec, 16 * k), sec[16 * k + 4..16 * k + 16])
  }

  function EntryBytes(x: Entry): (r: seq<byte>)
    ensures |r| == 16
  {
    Bytes32(x.nr) + x.name
  }

  /** A stored entry is read back, and its neighbours are not touched. */
  lemma EntryRoundTrip(sec: seq<byte>, k: nat, x: Entry)
    requires |sec| == 512 && k < 32 && x.nr < LIMIT32
    ensures var sec' := Splice(sec, 16 * k, EntryBytes(x));
            && EntryIn(sec', k) == x
            && forall k' | 0 <= k' < 32 && k' != k :: EntryIn(sec', k') == EntryIn(sec, k')
  {
    hide Get32, Bytes32, Splice;
    var o := 16 * k;
    var b := EntryBytes(x);
    var sec' := Splice(sec, o, b);
    assert b[0..4] == Bytes32(x.nr) && b[4..16] == x.name;
    assert sec'[o..o + 4] == b[0..4] && sec'[o + 4..o + 16] == b[4..16];
    Number32RoundTrip(x.nr, sec', o);
    forall k' | 0 <= k' < 32 && k' != k ensures EntryIn(sec', k') == EntryIn(sec, k') {
      Get32Elsewhere(sec, sec', 16 * k');
      assert sec'[16 * k' + 4..16 * k' + 16] == sec[16 * k' + 4..16 * k' + 16];
    }
  }

  /** All entries that fit into the directory's extent. */
  function Dir(d: seq<Sector>, dir0: nat): (r: seq<Entry>)
    requires dir0 + DIR_SECTS <= |d|
    ensures |r| == DIR_SLOTS
  {
    seq(DIR_SLOTS, e requires 0 <= e < DIR_SLOTS => EntryIn(d[dir0 + e / 32], e % 32))
  }

  lemma EntryStored(d: seq<Sector>, d': seq<Sector>, dir0: nat, e: nat, x: Entry)
    requires dir0 + DIR_SECTS <= |d| && e < DIR_SLOTS && x.nr < LIMIT32
    requires d' == d[dir0 + e / 32 := Splice(d[dir0 + e / 32], 16 * (e % 32), EntryBytes(x))]
    ensures Dir(d', dir0) == Dir(d, dir0)[e := x]
  {
    hide EntryIn, Splice, EntryBytes;
    EntryRoundTrip(d[dir0 + e / 32], e % 32, x);
    forall e' | 0 <= e' < DIR_SLOTS ensures Dir(d', dir0)[e'] == Dir(d, dir0)[e := x][e'] {
      if e' / 32 == e / 32 && e' % 32 == e % 32 {
        assert e' == e;
      }
    }
  }

  // ---------------------------------------------------------------- paths

  datatype Stripped = BadPath | Name(name: seq<byte>)

  function Min(x: int, y: int): int { if x <= y then x else y }

  /** The path without one leading slash, cut to twelve characters; no slash may be among
      them. */
  function StripPath(path: seq<byte>): (r: Stripped)
    ensures r.Name? ==> |r.name| <= 12 && SLASH !in r.name
    ensures r.Name? && 0 !in path ==> 0 !in r.name
  {
    var s := if |path| > 0 && path[0] == SLASH then path[1..] else path;
    var n := s[..Min(|s|, MAX_FILENAME_LEN)];
    if SLASH in n then BadPath else Name(n)
  }

  /** A name that a file can have. */
  ghost predicate GoodName(name: seq<byte>) {
    0 < |name| <= 12 && 0 !in name && SLASH !in name
  }

  /** A path that is a good name, with or without a slash in front, stands for that name. */
  lemma StripPathOfName(name: seq<byte>)
    requires |name| <= 12 && SLASH !in name
    ensures StripPath(name) == StripPath([SLASH] + name) == Name(name)
  {
    assert ([SLASH] + name)[1..] == name;
    assert name[..|name|] == name;
  }

  /** Only twelve characters count, after one slash in front: a path is bad exactly when there is a
      slash among them, and what comes behind them makes no difference. */
  lemma StripPathCuts(name: seq<byte>, more: seq<byte>)
    requires |name| == 12 && name[0] != SLASH
    ensures StripPath(name + more) == StripPath([SLASH] + name + more) == if SLASH in name then BadPath else Name(name)
  {
    assert ([SLASH] + name + more)[1..] == name + more;
    assert (name + more)[..12] == name;
  }

  /** Copies the name in the path to the buffer, with a zero behind it. */
  method CopyName(filename: array<byte>, path: seq<byte>) returns (ok: bool)
    requires filename.Length > 12 && 0 !in path
    modifies filename
    ensures ok == StripPath(path).Name?
    ensures ok ==> var n := StripPath(path).name;
                   && filename[..|n| + 1] == n + [0]
                   && filename[|n| + 1..] == old(filename[|n| + 1..])
  {
    var s := if |path| > 0 && path[0] == SLASH then 1 else 0;
    ghost var p, was := path[s..], filename[..];
    ghost var n := p[..Min(|p|, 12)];
    var t := 0;
    while s + t < |path|
      invariant t <= |n| && t < 12
      invariant forall i | 0 <= i < t :: filename[i] == n[i] && n[i] != SLASH
      invariant forall i | t <= i < filename.Length :: filename[i] == was[i]
    {
      assert n[t] == path[s + t];
      if path[s + t] == SLASH {
        return false;
      }
      filename[t] := path[s + t];
      t := t + 1;
      if t >= MAX_FILENAME_LEN {
        break;
      }
    }
    filename[t] := 0;
    assert filename[..t + 1] == n + [0];
    ok := true;
  }

  /** A name as it is stored: zeros behind it up to twelve bytes. */
  function Padded(name: seq<byte>): (r: Name12)
    requires |name| <= 12
  {
    name + seq(12 - |name|, _ => 0)
  }

  /** What is stored is a name that a file can have. */
  ghost predicate IsName(x: Name12) {
    exists name :: GoodName(name) && x == Padded(name)
  }

  lemma PaddedZeros(a: seq<byte>)
    requires |a| <= 12 && 0 !in a
    ensures forall i | 0 <= i < 12 :: Padded(a)[i] != 0 <==> i < |a|
  {
    forall i | 0 <= i < |a| ensures a[i] != 0 {
      assert a[i] in a;
    }
  }

  /** Different names are stored differently. */
  lemma PaddedInjective(a: seq<byte>, b: seq<byte>)
    requires |a| <= 12 && |b| <= 12 && 0 !in a && 0 !in b && Padded(a) == Padded(b)
    ensures a == b
  {
    PaddedZeros(a);
    PaddedZeros(b);
    assert |a| < 12 ==> Padded(b)[|a|] == 0;
    assert |b| < 12 ==> Padded(a)[|b|] == 0;
    assert a == Padded(a)[..|a|] && b == Padded(b)[..|b|];
  }

  // ---------------------------------------------------------------- search_file

  /** First entry below n with the name, or -1. */
  function FindName(dir: seq<Entry>, name: Name12, n: nat): (r: int)
    requires n <= |dir|
    ensures -1 <= r < n
    ensures r >= 0 ==> dir[r].name == name
    ensures forall e | 0 <= e < n && (r < 0 || e < r) :: dir[e].name != name
  {
    if n == 0 then -1
    else
      var r := FindName(dir, name, n - 1);
      if r >= 0 then r else if dir[n - 1].name == name then n - 1 else -1
  }

  lemma {:induction false} FindNameBelow(dir: seq<Entry>, name: Name12, e: nat, n: nat)
    requires e < n <= |dir| && dir[e].name == name
    requires forall e' | 0 <= e' < e :: dir[e'].name != name
    ensures FindName(dir, name, n) == e
  {
    if n > e + 1 {
      FindNameBelow(dir, name, e, n - 1);
    } 
  }

  /** How many entries a search looks at: one more than there are, unless that one would be in
      a sector of its own. */
  function SearchEnd(size: nat): (n: nat)
    ensures size <= DIR_SECTS * SECTOR_SIZE ==> n <= DIR_SLOTS
  {
    Min(size / 16 + 1, (size + 511) / 512 * 32)
  }

  /** The inode that a path stands for, 0 when there is none. */
  function Search(dir: seq<Entry>, size: nat, root: nat, path: seq<byte>): nat
    requires |dir| == DIR_SLOTS && size <= DIR_SECTS * SECTOR_SIZE
  {
    match StripPath(path)
    case BadPath => 0
    case Name(name) =>
      if name == [] then root
      else
        var e := FindName(dir, Padded(name), SearchEnd(size));
        if e < 0 then 0 else dir[e].nr
  }

  /** A name that no entry of the directory has is reported as absent, if and only if the search
      does not look at the entry behind the last, or that one does not have the name either,
      or it has no inode. */
  lemma SearchAbsent(dir: seq<Entry>, size: nat, root: nat, path: seq<byte>)
    requires |dir| == DIR_SLOTS && size <= DIR_SECTS * SECTOR_SIZE && size % 16 == 0
    requires StripPath(path).Name? && StripPath(path).name != []
    requires forall e | 0 <= e < size / 16 :: dir[e].name != Padded(StripPath(path).name)
    ensures var n := size / 16;
            Search(dir, size, root, path) == 0 <==>
              size % SECTOR_SIZE == 0 || dir[n].name != Padded(StripPath(path).name) || dir[n].nr == 0
  {
    hide Padded, FindName;
    var name, n := Padded(StripPath(path).name), size / 16;
    if size % SECTOR_SIZE == 0 {
      assert SearchEnd(size) == n;
    } else {
      assert SearchEnd(size) == n + 1;
      if dir[n].name == name {
        FindNameBelow(dir, name, n, n + 1);
      }
    }
  }

  /** 33 different names. */
  function Label(e: nat): (r: seq<byte>)
    requires e < 33
    ensures |r| == e % 11 + 1 && r[0] == (if e < 11 then 97 else if e < 22 then 98 else 99)
    ensures 0 !in r && SLASH !in r
  {
    seq(e % 11 + 1, _ => if e < 11 then 97 else if e < 22 then 98 else 99)
  }

  lemma LabelsDiffer(e: nat, e': nat)
    requires e < 33 && e' < 33 && Padded(Label(e)) == Padded(Label(e'))
    ensures e == e'
  {
    PaddedInjective(Label(e), Label(e'));
    hide Label;
  }

  /** A directory with 33 entries, and behind them, in the second sector, which mkfs does not zero,
      what the disk held before. */
  function Stale(nr: nat): (dir: seq<Entry>)
    ensures |dir| == DIR_SLOTS
  {
    seq(DIR_SLOTS, e requires 0 <= e < DIR_SLOTS => Entry(if e < 33 then e + 1 else nr, Padded(if e < 33 then Label(e) else [100])))
  }

  /** No entry has the name, and it is found behind the last one. */
  lemma StaleEntryFound(root: nat, nr: nat)
    requires nr > 0
    ensures GoodName([100])
    ensures forall e, e' | 0 <= e < 33 && 0 <= e' < 33 && e != e' :: Stale(nr)[e].name != Stale(nr)[e'].name
    ensures forall e | 0 <= e < 33 :: Stale(nr)[e].nr != 0 && Stale(nr)[e].name != Padded([100])
    ensures Search(Stale(nr), 16 * 33, root, [100]) == nr
  {
    hide Padded, FindName, Label;
    forall e, e' | 0 <= e < 33 && 0 <= e' < 33 && e != e' ensures Stale(nr)[e].name != Stale(nr)[e'].name {
      if Padded(Label(e)) == Padded(Label(e')) {
        LabelsDiffer(e, e');
      }
    }
    forall e | 0 <= e < 33 ensures Stale(nr)[e].name != Padded([100]) {
      if Padded(Label(e)) == Padded([100]) {
        PaddedInjective(Label(e), [100]);
      }
    }
    StripPathOfName([100]);
    FindNameBelow(Stale(nr), Padded([100]), 33, 34);
  }

  lemma EntryInBuffer(buf: seq<byte>, k: nat)
    requires |buf| >= 512 && k < 32
    ensures EntryIn(buf[..512], k) == Entry(Get32(buf, 16 * k), buf[16 * k + 4..16 * k + 16])
  {
    hide Get32;
    var sec := buf[..512];
    Get32Prefix(sec, buf, 16 * k);
    assert sec[16 * k + 4..16 * k + 16] == buf[16 * k + 4..16 * k + 16];
  }

  lemma Get32Prefix(s: seq<byte>, t: seq<byte>, o: nat)
    requires o + 4 <= |s| <= |t| && s == t[..|s|]
    ensures Get32(s, o) == Get32(t, o)
  {
    hide Value;
  }

  /** Looks through one loaded sector of the directory; m entries were looked at before. */
  method SearchSector(dev: Device, filename: array<byte>, m0: nat, nrEntries: nat, ghost dir: seq<Entry>)
    returns (found: bool, nr: nat, m: nat)
    requires dev.Valid() && filename.Length > 12 && m0 <= nrEntries && m0 % 32 == 0 && m0 + 32 <= |dir|
    requires SectorHolds(dev.fsbuf[..512], dir, m0)
    requires FindName(dir, filename[..12], m0) == -1
    ensures m <= |dir|
    ensures found ==> var e := FindName(dir, filename[..12], m); e >= 0 && m <= nrEntries + 1 && m <= m0 + 32 && nr == dir[e].nr
    ensures !found ==> FindName(dir, filename[..12], m) == -1 && m == Min(nrEntries + 1, m0 + 32)
  {
    hide Get32, EntryIn;
    m := m0;
    found, nr := false, 0;
    var j := 0;
    while j < 32
      invariant 0 <= j <= 32 && m == m0 + j && m <= nrEntries
      invariant FindName(dir, filename[..12], m) == -1
    {
      assert EntryIn(dev.fsbuf[..512], j) == dir[m0 + j];
      EntryInBuffer(dev.fsbuf[..], j);
      assert dev.fsbuf[..][..512] == dev.fsbuf[..512];
      assert dev.fsbuf[..][16 * j + 4..16 * j + 16] == dev.fsbuf[16 * j + 4..16 * j + 16];
      if filename[..12] == dev.fsbuf[16 * j + 4..16 * j + 16] {
        nr := Get32(dev.fsbuf[..], 16 * j);
        found := true;
        m := m + 1;
        return;
      }
      m := m + 1;
      if m > nrEntries {
        return;
      }
      j := j + 1;
    }
  }

  /** The sector holds the 32 entries from m0 on. */
  predicate SectorHolds(sec: seq<byte>, dir: seq<Entry>, m0: nat)
    requires |sec| == 512 && m0 + 32 <= |dir|
  {
    forall k | 0 <= k < 32 :: EntryIn(sec, k) == dir[m0 + k]
  }

  lemma SectorEntries(d: seq<Sector>, dir0: nat, i: nat)
    requires dir0 + DIR_SECTS <= |d| && i < DIR_SECTS
    ensures SectorHolds(d[dir0 + i], Dir(d, dir0), i * 32)
  {
    hide EntryIn;
    var sec := d[dir0 + i];
    forall k | 0 <= k < 32 ensures EntryIn(sec, k) == Dir(d, dir0)[i * 32 + k] {
      var e := i * 32 + k;
      assert e / 32 == i && e % 32 == k;
    }
  }

  /** Looks the path up in the directory at dir0 and returns the number of its inode, 0 when
      there is none. */
  method SearchFile(dev: Device, dir0: nat, size: nat, root: nat, path: seq<byte>) returns (nr: nat)
    requires dev.Valid() && dir0 + DIR_SECTS <= dev.disk.Length && size <= DIR_SECTS * SECTOR_SIZE && 0 !in path
    modifies dev.fsbuf
    ensures nr == Search(Dir(dev.disk[..], dir0), size, root, path)
  {
    var filename := new byte[128];
    for i := 0 to 12
      invariant forall j | 0 <= j < i :: filename[j] == 0
    {
      filename[i] := 0;
    }
    assert filename[..12] == Padded([]);
    var ok := CopyName(filename, path);
    if !ok {
      return 0;
    }
    ghost var name := StripPath(path).name;
    NameInBuffer(filename[..], name);
    PaddedZeros(name);
    assert filename[..12] == filename[..][..12] == Padded(name);
    assert filename[0] == filename[..12][0];
    if filename[0] == 0 {
      return root;
    }
    nr := SearchEntries(dev, dir0, size, filename);
  }

  lemma NameInBuffer(buf: seq<byte>, name: seq<byte>)
    requires |buf| > 12 && |name| <= 12 && buf[..|name| + 1] == name + [0]
    requires forall i | |name| < i < 12 :: buf[i] == 0
    ensures buf[..12] == Padded(name)
  {
    forall i | 0 <= i < 12 ensures buf[i] == Padded(name)[i] {
      assert i <= |name| ==> buf[i] == buf[..|name| + 1][i];
    }
  }

  method SearchEntries(dev: Device, dir0: nat, size: nat, filename: array<byte>) returns (nr: nat)
    requires dev.Valid() && dir0 + DIR_SECTS <= dev.disk.Length && size <= DIR_SECTS * SECTOR_SIZE
    requires filename.Length > 12 && filename != dev.fsbuf
    modifies dev.fsbuf
    ensures var dir := Dir(dev.disk[..], dir0);
            var e := FindName(dir, filename[..12], SearchEnd(size));
            nr == if e < 0 then 0 else dir[e].nr
  {
    hide EntryIn, Dir, SectorHolds, FindName;
    ghost var dir := Dir(dev.disk[..], dir0);
    ghost var key := filename[..12];
    var nrBlks := (size + SECTOR_SIZE - 1) / SECTOR_SIZE;
    var nrEntries := size / DIR_ENTRY_SIZE;
    var m := 0;
    var i := 0;
    while i < nrBlks
      invariant 0 <= i <= nrBlks && m == i * 32 && filename[..12] == key
      invariant FindName(dir, key, m) == -1 && m <= nrEntries
    {
      dev.RdSect(dir0 + i);
      SectorEntries(dev.disk[..], dir0, i);
      var found: bool;
      found, nr, m := SearchSector(dev, filename, m, nrEntries, dir);
      if found {
        FindNameBelow(dir, key, FindName(dir, key, m), SearchEnd(size));
        return;
      }
      if m > nrEntries {
        break;
      }
      i := i + 1;
    }
    return 0;
  }
}
