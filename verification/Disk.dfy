/** The disk device of src/devfs.c: bytes read and written through 512-byte sectors. A sector
    operation succeeds, or fails without effect, as an oracle says. */
module Disk {
  import opened Basics

  const SECTOR: nat := 512

  /** The disk as one run of bytes: sector `i` is disk[512 * i .. 512 * (i + 1)]. */
  type Bytes = seq<bv8>

  predicate Sectors(disk: Bytes) { |disk| % SECTOR == 0 }

  /** What is read after a write: the bytes written, and elsewhere the bytes there were. */
  lemma ReadAfterWrite(disk: Bytes, off: nat, buf: Bytes, from: nat, len: nat)
    requires off + |buf| <= |disk| && from + len <= |disk|
    ensures var r := Splice(disk, off, buf)[from..from + len];
            && (from == off && len == |buf| ==> r == buf)
            && (from + len <= off || off + |buf| <= from ==> r == disk[from..from + len])
  {
    var r := Splice(disk, off, buf)[from..from + len];
    if from == off && len == |buf| { forall i | 0 <= i < len ensures r[i] == buf[i] {} }
    if from + len <= off || off + |buf| <= from { forall i | 0 <= i < len ensures r[i] == disk[from..from + len][i] {} }
  }

  /** The chunk of a round: to the end of the sector or of the request. */
  lemma ChunkBounds(off: nat, left: nat, chunk: nat, size: nat)
    requires chunk == (if SECTOR - off % SECTOR > left then left else SECTOR - off % SECTOR) && left > 0
    requires size % SECTOR == 0 && off + left <= size
    ensures 0 < chunk <= left && off / SECTOR * SECTOR + SECTOR <= size
    ensures off == off / SECTOR * SECTOR + off % SECTOR && off % SECTOR + chunk <= SECTOR
  {
    var q := size / SECTOR;
    assert size == q * SECTOR && off / SECTOR < q;
  }

  class Device {
    var disk: Bytes

    /** `virtio_blk_read_sector`: in range, and when it works. */
    method ReadSector(idx: nat, works: bool) returns (ok: bool, sector: Bytes)
      requires Sectors(disk)
      ensures ok == (works && (idx + 1) * SECTOR <= |disk|)
      ensures ok ==> sector == disk[idx * SECTOR..idx * SECTOR + SECTOR]
    {
      if !works || (idx + 1) * SECTOR > |disk| { return false, []; }
      return true, disk[idx * SECTOR..idx * SECTOR + SECTOR];
    }

    method WriteSector(idx: nat, sector: Bytes, works: bool) returns (ok: bool)
      requires Sectors(disk) && |sector| == SECTOR
      modifies this
      ensures ok == (works && (idx + 1) * SECTOR <= |old(disk)|)
      ensures disk == if ok then Splice(old(disk), idx * SECTOR, sector) else old(disk)
    {
      if !works || (idx + 1) * SECTOR > |disk| { return false; }
      disk := Splice(disk, idx * SECTOR, sector);
      return true;
    }

    /** `dev_disk_read`: the slice, and nothing less; it fails only if a sector cannot be read. */
    method Read(offset: nat, len: nat, ready: bool, works: nat -> bool) returns (r: Option<Bytes>)
      requires Sectors(disk)
      ensures r.Some? && len > 0 ==> offset + len <= |disk| && r.value == disk[offset..offset + len]
      ensures r.Some? && len == 0 ==> r.value == []
      ensures ready && (len == 0 || offset + len <= |disk|) && (forall k :: works(k)) ==> r.Some?
    {
      if !ready { return None; }
      var out, done, op := [], 0, 0;
      while done < len
        invariant done <= len && (done > 0 ==> offset + done <= |disk| && out == disk[offset..offset + done]) && (done == 0 ==> out == [])
      {
        var off := offset + done;
        var idx, at := off / SECTOR, off % SECTOR;
        var chunk := if SECTOR - at > len - done then len - done else SECTOR - at;
        var ok, sector := ReadSector(idx, works(op));
        if !ok {
          if offset + len <= |disk| { ChunkBounds(off, len - done, chunk, |disk|); }
          return None;
        }
        SliceOfSector(disk, idx, at, chunk, sector);
        assert offset + done + chunk <= |disk|;
        assert disk[offset..offset + done] + disk[off..off + chunk] == disk[offset..off + chunk];
        out := out + sector[at..at + chunk];
        done, op := done + chunk, op + 1;
      }
      return Some(out);
    }

    /** One round of `dev_disk_write`. A sector that is covered in part is read first. */
    method WriteChunk(off: nat, piece: Bytes, readWorks: bool, writeWorks: bool) returns (ok: bool)
      requires Sectors(disk) && 0 < |piece| && off % SECTOR + |piece| <= SECTOR
      modifies this
      ensures Sectors(disk)
      ensures ok ==> off + |piece| <= |old(disk)| && disk == Splice(old(disk), off, piece)
      ensures !ok ==> disk == old(disk)
      ensures readWorks && writeWorks && off / SECTOR * SECTOR + SECTOR <= |old(disk)| ==> ok
    {
      var idx, at := off / SECTOR, off % SECTOR;
      var sector := seq(SECTOR, _ => 0);
      if at != 0 || |piece| != SECTOR {
        ok, sector := ReadSector(idx, readWorks);
        if !ok { return; }
      }
      var whole := Splice(sector, at, piece);
      ghost var was := disk;
      ok := WriteSector(idx, whole, writeWorks);
      if ok { SectorSplice(was, idx, at, sector, piece, whole); }
    }

    /** `dev_disk_write`: the splice, and nothing else. If a sector cannot be read or written, a
        prefix of the buffer has been written and the rest of the disk is untouched. */
    method Write(offset: nat, buf: Bytes, ready: bool, works: nat -> bool) returns (ok: bool, ghost done: nat)
      requires Sectors(disk)
      modifies this
      ensures done <= |buf| && (ok ==> done == |buf|)
      ensures if done == 0 then disk == old(disk) else offset + done <= |old(disk)| && disk == Splice(old(disk), offset, buf[..done])
      ensures ready && (buf == [] || offset + |buf| <= |old(disk)|) && (forall k :: works(k)) ==> ok
    {
      if !ready { return false, 0; }
      ghost var was := disk;
      var n, op: nat := 0, 0;
      while n < |buf|
        invariant n <= |buf| && Sectors(disk) && |disk| == |was|
        invariant if n == 0 then disk == was else offset + n <= |was| && disk == Splice(was, offset, buf[..n])
      {
        var off := offset + n;
        var room := SECTOR - off % SECTOR;
        var chunk := if room > |buf| - n then |buf| - n else room;
        if offset + |buf| <= |disk| { ChunkBounds(off, |buf| - n, chunk, |disk|); }
        ok := WriteChunk(off, buf[n..n + chunk], works(op), works(op + 1));
        if !ok { return false, n; }
        WriteMore(was, offset, buf, n, chunk);
        n, op := n + chunk, op + 2;
      }
      return true, n;
    }
  }


  lemma SliceOfSector(disk: Bytes, idx: nat, at: nat, chunk: nat, sector: Bytes)
    requires idx * SECTOR + SECTOR <= |disk| && sector == disk[idx * SECTOR..idx * SECTOR + SECTOR] && at + chunk <= SECTOR
    ensures sector[at..at + chunk] == disk[idx * SECTOR + at..idx * SECTOR + at + chunk]
  {
    var a, b := sector[at..at + chunk], disk[idx * SECTOR + at..idx * SECTOR + at + chunk];
    forall i | 0 <= i < chunk ensures a[i] == b[i] {}
  }

  /** Splicing into a sector and writing it back is splicing into the disk. */
  lemma SectorSplice(disk: Bytes, idx: nat, at: nat, sector: Bytes, piece: Bytes, whole: Bytes)
    requires idx * SECTOR + SECTOR <= |disk| && |sector| == SECTOR && at + |piece| <= SECTOR && whole == Splice(sector, at, piece)
    requires sector == disk[idx * SECTOR..idx * SECTOR + SECTOR] || |piece| == SECTOR
    ensures Splice(disk, idx * SECTOR, whole) == Splice(disk, idx * SECTOR + at, piece)
  {
    var a, b := Splice(disk, idx * SECTOR, whole), Splice(disk, idx * SECTOR + at, piece);
    forall i | 0 <= i < |disk| ensures a[i] == b[i] {}
  }

  lemma WriteMore(was: Bytes, offset: nat, buf: Bytes, n: nat, chunk: nat)
    requires n + chunk <= |buf| && offset + n + chunk <= |was|
    ensures Splice(if n == 0 then was else Splice(was, offset, buf[..n]), offset + n, buf[n..n + chunk]) == Splice(was, offset, buf[..n + chunk])
  {
    var a := Splice(if n == 0 then was else Splice(was, offset, buf[..n]), offset + n, buf[n..n + chunk]);
    var b := Splice(was, offset, buf[..n + chunk]);
    forall i | 0 <= i < |was| ensures a[i] == b[i] {}
  }

  /** A write that succeeds and a read that succeeds: what was written is read back, and what lies
      elsewhere is what was there. */
  method WriteThenRead(d: Device, offset: nat, buf: Bytes, from: nat, len: nat, ready: bool, works: nat -> bool)
    returns (ok: bool, r: Option<Bytes>)
    requires Sectors(d.disk)
    modifies d
    ensures ok && r.Some? && from == offset && len == |buf| ==> r.value == buf
    ensures ok && r.Some? && len > 0 && (from + len <= offset || offset + |buf| <= from) ==>
              from + len <= |old(d.disk)| && r.value == old(d.disk)[from..from + len]
    ensures ready && (forall k :: works(k)) && 0 < |buf| && offset + |buf| <= |old(d.disk)| && 0 < len && from + len <= |old(d.disk)| ==> ok && r.Some?
  {
    ghost var was, done := d.disk, 0;
    ok, done := d.Write(offset, buf, ready, works);
    r := d.Read(from, len, ready, works);
    if ok && r.Some? && len > 0 {
      if buf == [] { return; }
      assert buf[..|buf|] == buf;
      ReadAfterWrite(was, offset, buf, from, len);
    }
  }
}
