/** The disk as an array of sectors, and the file system's buffer. Reading or writing
    sectors through the driver is one atomic step. */
module FsDevice {
  import opened FsBits

  const SECTOR_SIZE: nat := 512

  type Sector = s: seq<byte> | |s| == 512 witness seq(512, _ => 0)

  class Device {
    const disk: array<Sector>
    const fsbuf: array<byte>

    predicate Valid() {
      fsbuf.Length >= 512 && fsbuf as object != disk
    }

    constructor (disk: array<Sector>, fsbuf: array<byte>)
      ensures this.disk == disk && this.fsbuf == fsbuf
    {
      this.disk := disk;
      this.fsbuf := fsbuf;
    }

    /** Reads one sector to the start of the buffer. */
    method RdSect(s: nat)
      requires Valid() && s < disk.Length
      modifies fsbuf
      ensures fsbuf[..512] == disk[s] && fsbuf[512..] == old(fsbuf[512..])
    {
      for i := 0 to 512
        invariant fsbuf[..i] == disk[s][..i] && fsbuf[512..] == old(fsbuf[512..])
      {
        fsbuf[i] := disk[s][i];
      }
    }

    /** Writes the start of the buffer to one sector. */
    method WrSect(s: nat)
      requires Valid() && s < disk.Length
      modifies disk
      ensures disk[..] == old(disk[..])[s := fsbuf[..512]]
    {
      disk[s] := fsbuf[..512];
    }
  }
}
