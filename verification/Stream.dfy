/** The sector stream of `stream.c`: a byte view of a device that only moves whole sectors. */
module SectorStream {

  const SECTOR: nat := 512

  /** `s` with `d` written over it from `pos` on. */
  function Splice(s: seq<int>, pos: nat, d: seq<int>): (r: seq<int>)
    requires pos + |d| <= |s|
    ensures |r| == |s|
    ensures forall i | 0 <= i < |s| :: r[i] == if pos <= i < pos + |d| then d[i - pos] else s[i]
  {
    s[..pos] + d + s[pos + |d|..]
  }

  /** The accesses that `stream.c` gets right: those that start on a sector boundary, and those inside one sector. */
  predicate Access(pos: nat, n: nat) {
    pos % SECTOR == 0 || pos % SECTOR + n <= SECTOR
  }

  /** The first pass of the copy loop stays inside the one-sector buffer exactly for those accesses;
      every later pass starts on a boundary. */
  lemma BufferBound(pos: nat, n: nat)
    requires 0 < n
    ensures pos % SECTOR + (if n > SECTOR then SECTOR else n) <= SECTOR <==> Access(pos, n)
    ensures Access(pos, n) && SECTOR < n ==> Access(pos + SECTOR, n - SECTOR) && (pos + SECTOR) % SECTOR == 0
  {
    if Access(pos, n) && SECTOR < n {
      assert (pos + SECTOR) % SECTOR == pos % SECTOR;
    }
  }

  /** An ATA device that does not fail, with its transfer buffer. */
  class Device {
    var disk: seq<int>
    var buffer: seq<int>

    ghost predicate Valid()
      reads this
    {
      |buffer| == SECTOR && |disk| % SECTOR == 0
    }

    constructor (image: seq<int>)
      requires |image| % SECTOR == 0
      ensures Valid() && disk == image
    {
      disk := image;
      buffer := seq(SECTOR, _ => 0);
    }

    /** `ata_read` of one sector */
    method ReadSector(lba: nat)
      requires Valid() && lba * SECTOR < |disk|
      modifies this`buffer
      ensures Valid() && buffer == disk[lba * SECTOR..lba * SECTOR + SECTOR]
    {
      buffer := disk[lba * SECTOR..lba * SECTOR + SECTOR];
    }

    /** `ata_write` of the transfer buffer to one sector */
    method WriteSector(lba: nat)
      requires Valid() && lba * SECTOR < |disk|
      modifies this`disk
      ensures Valid() && disk == Splice(old(disk), lba * SECTOR, buffer)
    {
      disk := disk[..lba * SECTOR] + buffer + disk[lba * SECTOR + SECTOR..];
    }
  }

  class Stream {
    var pos: nat
    const dev: Device

    constructor (dev: Device)
      ensures this.dev == dev && pos == 0
    {
      this.dev := dev;
      pos := 0;
    }

    /** `stream_seek` */
    method Seek(p: nat)
      modifies this`pos
      ensures pos == p
    {
      pos := p;
    }

    /** The copy loop of `stream_read`: `size` bytes of the transfer buffer appended to `r`. */
    method CopyOut(r: seq<int>, offset: nat, size: nat) returns (r': seq<int>)
      requires offset + size <= |dev.buffer|
      ensures r' == r + dev.buffer[offset..offset + size]
    {
      r' := r;
      var i := 0;
      while i < size
        invariant i <= size && r' == r + dev.buffer[offset..offset + i]
      {
        r' := r' + [dev.buffer[offset + i]];
        i := i + 1;
      }
    }

    /** The loop body of `stream_read`: `size` bytes of one sector appended to `r`. */
    method ReadInSector(r: seq<int>, size: nat) returns (r': seq<int>)
      requires dev.Valid() && 0 < size && pos % SECTOR + size <= SECTOR && pos + size <= |dev.disk|
      modifies dev`buffer
      ensures dev.Valid() && r' == r + dev.disk[pos..pos + size]
    {
      var lba, offset := pos / SECTOR, pos % SECTOR;
      SectorBound(dev.disk, pos, size);
      dev.ReadSector(lba);
      r' := CopyOut(r, offset, size);
    }

    /** `stream_read`: exactly the bytes `[pos, pos + n)`. */
    method Read(n: nat) returns (r: seq<int>)
      requires dev.Valid() && Access(pos, n) && pos + n <= |dev.disk|
      modifies this`pos, dev`buffer
      ensures dev.Valid() && r == dev.disk[old(pos)..old(pos) + n] && pos == old(pos) + n
    {
      r := [];
      var remaining: nat := n;
      ghost var disk, pos0 := dev.disk, pos;
      while remaining != 0
        invariant dev.Valid() && remaining <= n && pos == pos0 + n - remaining
        invariant Access(pos, remaining) && r == disk[pos0..pos]
      {
        BufferBound(pos, remaining);
        var size := if remaining > SECTOR then SECTOR else remaining;
        r := ReadInSector(r, size);
        assert r == disk[pos0..pos + size];
        pos := pos + size;
        remaining := remaining - size;
      }
    }

    /** The copy loop of `stream_write`. */
    method CopyIn(data: seq<int>, done: nat, offset: nat, size: nat)
      requires offset + size <= |dev.buffer| && done + size <= |data|
      modifies dev`buffer
      ensures dev.buffer == Splice(old(dev.buffer), offset, data[done..done + size])
    {
      var i := 0;
      while i < size
        invariant i <= size && |dev.buffer| == |old(dev.buffer)|
        invariant dev.buffer == Splice(old(dev.buffer), offset, data[done..done + i])
      {
        dev.buffer := dev.buffer[offset + i := data[done + i]];
        i := i + 1;
      }
    }

    /** The loop body of `stream_write`: read-modify-write of one sector. */
    method WriteInSector(data: seq<int>, done: nat, size: nat)
      requires dev.Valid() && 0 < size && pos % SECTOR + size <= SECTOR && pos + size <= |dev.disk|
      requires done + size <= |data|
      modifies dev
      ensures dev.Valid() && dev.disk == Splice(old(dev.disk), pos, data[done..done + size])
    {
      var lba, offset := pos / SECTOR, pos % SECTOR;
      ghost var disk := dev.disk;
      SectorBound(disk, pos, size);
      dev.ReadSector(lba);
      ghost var before := dev.buffer;
      CopyIn(data, done, offset, size);
      dev.WriteSector(lba);
      SectorUpdate(disk, pos, data[done..done + size], before, dev.buffer);
    }

    /** `stream_write`: changes exactly the bytes `[pos, pos + |data|)`. */
    method Write(data: seq<int>)
      requires dev.Valid() && Access(pos, |data|) && pos + |data| <= |dev.disk|
      modifies this`pos, dev
      ensures dev.Valid() && dev.disk == Splice(old(dev.disk), old(pos), data) && pos == old(pos) + |data|
    {
      var remaining: nat := |data|;
      ghost var disk0, pos0 := dev.disk, pos;
      while remaining != 0
        invariant dev.Valid() && remaining <= |data| && pos == pos0 + |data| - remaining
        invariant Access(pos, remaining) && dev.disk == Splice(disk0, pos0, data[..|data| - remaining])
      {
        BufferBound(pos, remaining);
        var size := if remaining > SECTOR then SECTOR else remaining;
        WriteInSector(data, |data| - remaining, size);
        SpliceMore(disk0, pos0, data, |data| - remaining, size);
        pos := pos + size;
        remaining := remaining - size;
      }
    }
  }

  lemma SpliceMore(disk: seq<int>, pos: nat, data: seq<int>, done: nat, size: nat)
    requires pos + |data| <= |disk| && done + size <= |data|
    ensures Splice(Splice(disk, pos, data[..done]), pos + done, data[done..done + size])
      == Splice(disk, pos, data[..done + size])
  {
  }

  /** The sector that holds `[pos, pos + size)` is on the disk. */
  lemma SectorBound(disk: seq<int>, pos: nat, size: nat)
    requires |disk| % SECTOR == 0 && 0 < size && pos % SECTOR + size <= SECTOR && pos + size <= |disk|
    ensures pos / SECTOR * SECTOR + SECTOR <= |disk|
    ensures var sector := disk[pos / SECTOR * SECTOR..pos / SECTOR * SECTOR + SECTOR];
      sector[pos % SECTOR..pos % SECTOR + size] == disk[pos..pos + size]
  {
    assert pos == pos / SECTOR * SECTOR + pos % SECTOR;
  }

  /** Read-modify-write of the sector at `pos` writes `d` there. */
  lemma SectorUpdate(disk: seq<int>, pos: nat, d: seq<int>, before: seq<int>, buffer: seq<int>)
    requires pos % SECTOR + |d| <= SECTOR && pos + |d| <= |disk| && pos / SECTOR * SECTOR + SECTOR <= |disk|
    requires before == disk[pos / SECTOR * SECTOR..pos / SECTOR * SECTOR + SECTOR]
    requires buffer == Splice(before, pos % SECTOR, d)
    ensures Splice(disk, pos / SECTOR * SECTOR, buffer) == Splice(disk, pos, d)
  {
    assert pos == pos / SECTOR * SECTOR + pos % SECTOR;
  }
}
