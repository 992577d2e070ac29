/**
  streamer.c: a byte stream over a disk that is read sector by sector.
*/
module DiskStream {
  import opened Words

  const SECTOR_SIZE := 512
  const INT_MAX := 0x7FFF_FFFF

  /** The disk as a flat image: sector `l` is bytes `512 * l` and following. */
  type Image = nat -> Byte

  /** `n` bytes of the image from `pos` on. */
  function Slice(image: Image, pos: nat, n: nat): (s: seq<Byte>)
    ensures |s| == n && forall i | 0 <= i < n :: s[i] == image(pos + i)
  {
    seq(n, i requires 0 <= i < n => image(pos + i))
  }

  /** The one disk of the system, with a count of the sectors read from it. */
  class Disk {
    const image: Image
    var sectorReads: nat

    constructor (i: Image)
      ensures image == i && sectorReads == 0
    {
      image, sectorReads := i, 0;
    }

    /** disk_read_block of one sector into `buf`; the one disk always answers. */
    method ReadBlock(lba: nat, buf: array<Byte>) returns (res: int)
      requires buf.Length == SECTOR_SIZE
      modifies this, buf
      ensures res == 0 && sectorReads == old(sectorReads) + 1
      ensures buf[..] == Slice(image, lba * SECTOR_SIZE, SECTOR_SIZE)
    {
      for i := 0 to SECTOR_SIZE
        modifies buf
        invariant forall j | 0 <= j < i :: buf[j] == image(lba * SECTOR_SIZE + j)
      {
        buf[i] := image(lba * SECTOR_SIZE + i);
      }
      sectorReads := sectorReads + 1;
      res := 0;
    }
  }

  /** `out` with `bytes` written from index `at` on. */
  function Written(out: seq<Byte>, at: nat, bytes: seq<Byte>): (r: seq<Byte>)
    requires at + |bytes| <= |out|
    ensures |r| == |out|
  {
    out[..at] + bytes + out[at + |bytes|..]
  }

  /** Every byte lands at its index, and nothing else changes. */
  lemma WrittenBytes(out: seq<Byte>, at: nat, bytes: seq<Byte>)
    requires at + |bytes| <= |out|
    ensures forall i | 0 <= i < |out| ::
              Written(out, at, bytes)[i] == if at <= i < at + |bytes| then bytes[i - at] else out[i]
  {
  }

  lemma WrittenTwice(image: Image, out: seq<Byte>, at: nat, pos: nat, k: nat, n: nat)
    requires at + k + n <= |out|
    ensures Written(Written(out, at, Slice(image, pos, k)), at + k, Slice(image, pos + k, n))
            == Written(out, at, Slice(image, pos, k + n))
  {
  }

  /** The bytes of the stream's sector from its offset on are the image's from the stream's position on. */
  lemma SliceOfSector(image: Image, pos: nat, n: nat)
    requires pos % SECTOR_SIZE + n <= SECTOR_SIZE
    ensures Slice(image, pos / SECTOR_SIZE * SECTOR_SIZE, SECTOR_SIZE)[pos % SECTOR_SIZE..pos % SECTOR_SIZE + n]
            == Slice(image, pos, n)
  {
    assert pos / SECTOR_SIZE * SECTOR_SIZE + pos % SECTOR_SIZE == pos;
  }

  /** Reading to the end of a sector brings the position to the next one and saves one sector read. */
  lemma SectorSteps(pos: nat, total: nat)
    ensures var k := SECTOR_SIZE - pos % SECTOR_SIZE;
            total >= k ==>
              && (pos + k) % SECTOR_SIZE == 0
              && (pos % SECTOR_SIZE + total) / SECTOR_SIZE == (total - k) / SECTOR_SIZE + 1
    ensures pos % SECTOR_SIZE + total < SECTOR_SIZE ==> (pos % SECTOR_SIZE + total) / SECTOR_SIZE == 0
  {
    var k := SECTOR_SIZE - pos % SECTOR_SIZE;
    assert pos + k == SECTOR_SIZE * (pos / SECTOR_SIZE + 1);
  }

  /** The copy loop. */
  method CopyBytes(buf: array<Byte>, offset: nat, out: array<Byte>, at: nat, n: nat)
    requires buf != out && offset + n <= buf.Length && at + n <= out.Length
    modifies out
    ensures out[..] == Written(old(out[..]), at, buf[offset..offset + n])
  {
    for i := 0 to n
      invariant out[..] == Written(old(out[..]), at, buf[offset..offset + i])
    {
      out[at + i] := buf[offset + i];
    }
  }

  class DiskStream {
    const disk: Disk
    var pos: int

    /** diskstreamer_new */
    constructor (d: Disk)
      ensures disk == d && pos == 0
    {
      disk, pos := d, 0;
    }

    /** diskstreamer_seek */
    method Seek(p: int) returns (res: int)
      modifies this
      ensures res == 0 && pos == p
    {
      pos := p;
      res := 0;
    }

    /** diskstreamer_read into `out` from index `at` on: exactly a slice of the image, one read for each
        sector touched and one more when the slice ends on a sector boundary. */
    method Read(out: array<Byte>, at: nat, total: nat) returns (res: int)
      requires pos >= 0 && pos + total <= INT_MAX && at + total <= out.Length
      modifies this, disk, out
      ensures res == 0
      ensures out[..] == Written(old(out[..]), at, Slice(disk.image, old(pos), total))
      ensures forall i | at <= i < at + total :: out[i] == disk.image(old(pos) + (i - at))
      ensures forall i | 0 <= i < out.Length && !(at <= i < at + total) :: out[i] == old(out[i])
      ensures pos == old(pos) + total
      ensures disk.sectorReads == old(disk.sectorReads) + (old(pos) % SECTOR_SIZE + total) / SECTOR_SIZE + 1
      decreases total
    {
      hide Slice;
      hide Written;
      SectorSteps(pos, total);
      SliceOfSector(disk.image, pos,
                    if pos % SECTOR_SIZE + total >= SECTOR_SIZE then SECTOR_SIZE - pos % SECTOR_SIZE else total);
      var sector := pos / SECTOR_SIZE;
      var offset := pos % SECTOR_SIZE;
      var totalToRead := total;
      var overflow := offset + totalToRead >= SECTOR_SIZE;
      var buf := new Byte[SECTOR_SIZE];
      if overflow {
        totalToRead := totalToRead - (offset + totalToRead - SECTOR_SIZE);
      }
      res := disk.ReadBlock(sector, buf);
      if res < 0 {
        return;
      }
      CopyBytes(buf, offset, out, at, totalToRead);
      pos := pos + totalToRead;
      if overflow {
        WrittenTwice(disk.image, old(out[..]), at, old(pos), totalToRead, total - totalToRead);
        res := Read(out, at + totalToRead, total - totalToRead);
      }
      WrittenBytes(old(out[..]), at, Slice(disk.image, old(pos), total));
      assert forall i | 0 <= i < out.Length :: out[i] == out[..][i];
    }
  }
}
