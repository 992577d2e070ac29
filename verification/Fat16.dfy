/**
  fat16.c: reading a file through its cluster chain.

  The successor of a cluster is whatever fat16_get_fat_entry returns for it. The reader goes through the
  file in chunks of one cluster's size and, for every chunk, walks the chain again from its start.
*/
module Fat16 {
  import opened Words
  import opened DiskStream

  /** What the reader knows about a volume: its image, the header's sectors per cluster and reserved sectors,
      and the sector after the root directory. */
  datatype Volume = Volume(image: Image, sectorsPerCluster: nat, reservedSectors: nat, endingSectorPos: int)
  {
    predicate Valid() {
      1 <= sectorsPerCluster < 0x100 && reservedSectors < 0x1_0000
    }

    function ClusterSize(): (n: nat)
      requires Valid()
      ensures SECTOR_SIZE <= n
    {
      sectorsPerCluster * SECTOR_SIZE
    }

    /** Byte position that fat16_get_fat_entry seeks to: the position of the table times the offset of the
        entry, in 32 bits, read as a signed integer. */
    function EntryPos(cluster: int): int {
      Signed(Wrap(reservedSectors * SECTOR_SIZE * (cluster * 2)))
    }

    /** First byte of a cluster's data. */
    function ClusterPos(cluster: int): int {
      (endingSectorPos + (cluster - 2) * sectorsPerCluster) * SECTOR_SIZE
    }

    /** Both seeks for the cluster, and the reads that follow them, stay in signed range. */
    predicate Reachable(cluster: int)
      requires Valid()
    {
      && 0 <= EntryPos(cluster) <= INT_MAX - 2
      && 0 <= ClusterPos(cluster) <= INT_MAX - 2 * ClusterSize()
    }

    function Successor(cluster: int): nat
      requires EntryPos(cluster) >= 0
    {
      image(EntryPos(cluster)) + 0x100 * image(EntryPos(cluster) + 1)
    }
  }

  /** The values at which the reader gives up. */
  predicate Stops(entry: int) {
    entry == 0xFF8 || entry == 0xFFF || entry == 0xFF7 || entry == 0xFF0 || entry == 0xFF6 || entry == 0x00
  }

  datatype Option<T> = None | Some(value: T)

  /** The `k`-th cluster of the chain, if no stop value comes before it. */
  function Chain(v: Volume, start: int, k: nat): Option<int>
    requires v.Valid()
  {
    if k == 0 then Some(start)
    else
      match Chain(v, start, k - 1)
      case None => None
      case Some(c) =>
        if v.EntryPos(c) < 0 || Stops(v.Successor(c)) then None else Some(v.Successor(c))
  }

  /** Where the entry of a cluster is looked up, as the 32-bit seek position. */
  lemma EntryPlace(v: Volume, cluster: int)
    ensures -0x8000_0000 <= v.EntryPos(cluster) < 0x8000_0000
    ensures v.EntryPos(cluster) % 0x1_0000_0000 == v.reservedSectors * 512 * (cluster * 2) % 0x1_0000_0000
  {
  }

  /** A chain goes on from a cluster with the 16 bits found there, low byte first, unless they are one of six values. */
  lemma ChainGoesOn(v: Volume, start: int, k: nat)
    requires v.Valid() && Chain(v, start, k).Some? && v.EntryPos(Chain(v, start, k).value) >= 0
    ensures Chain(v, start, 0) == Some(start)
    ensures var p := v.EntryPos(Chain(v, start, k).value);
            var entry := v.image(p) + 256 * v.image(p + 1);
            Chain(v, start, k + 1)
            == if entry in {0x0000, 0x0FF0, 0x0FF6, 0x0FF7, 0x0FF8, 0x0FFF} then None else Some(entry)
  {
  }

  /** Cluster 2 starts at the sector behind the root directory, and clusters follow each other at their size. */
  lemma ClusterPlace(v: Volume, cluster: int)
    requires v.Valid()
    ensures v.ClusterPos(2) == v.endingSectorPos * 512 && v.ClusterSize() == v.sectorsPerCluster * 512
    ensures v.ClusterPos(cluster + 1) == v.ClusterPos(cluster) + v.sectorsPerCluster * 512
  {
    assert (cluster + 1 - 2) * v.sectorsPerCluster == (cluster - 2) * v.sectorsPerCluster + v.sectorsPerCluster;
  }

  /** The first `k + 1` clusters of the chain, as far as it goes, can be read. */
  ghost predicate Walkable(v: Volume, start: int, k: nat)
    requires v.Valid()
  {
    forall j: nat | j <= k && Chain(v, start, j).Some? :: v.Reachable(Chain(v, start, j).value)
  }

  lemma {:induction false} ChainPrefix(v: Volume, start: int, j: nat, k: nat)
    requires v.Valid() && j <= k && Chain(v, start, k).Some?
    ensures Chain(v, start, j).Some?
  {
    if j < k { ChainPrefix(v, start, j, k - 1); }
  }

  // ---------------------------------------------------------------- division by the cluster size

  /** Which cluster of its file a byte lies in, and where in that cluster. */
  function Idx(size: nat, p: nat): nat
    requires size > 0
  {
    p / size
  }

  function Off(size: nat, p: nat): (r: nat)
    requires size > 0
    ensures r < size
  {
    p % size
  }

  lemma IndexIs(p: nat, size: nat, q: nat, r: nat)
    requires size > 0 && p == q * size + r && r < size
    ensures Idx(size, p) == q && Off(size, p) == r
  {
    DivUnique(p, size, q, r);
  }

  lemma DivAdd(a: nat, b: nat)
    requires b > 0
    ensures Idx(b, a + b) == Idx(b, a) + 1 && Off(b, a + b) == Off(b, a)
  {
    var q := a / b;
    assert (q + 1) * b == q * b + b;
    assert a == q * b + a % b;
    DivUnique(a + b, b, q + 1, a % b);
  }

  /** Byte `x` after `offset`, within the same cluster or in the next one. */
  lemma DivNear(offset: nat, size: nat, x: nat)
    requires size > 0 && x < size
    ensures Off(size, offset) + x < size ==>
              Idx(size, offset + x) == Idx(size, offset) && Off(size, offset + x) == Off(size, offset) + x
    ensures Off(size, offset) + x >= size ==>
              Idx(size, offset + x) == Idx(size, offset) + 1 && Off(size, offset + x) == Off(size, offset) + x - size
  {
    var q, r := offset / size, offset % size;
    assert offset == q * size + r;
    if r + x < size {
      DivUnique(offset + x, size, q, r + x);
    } else {
      assert (q + 1) * size == q * size + size;
      DivUnique(offset + x, size, q + 1, r + x - size);
    }
  }

  /** Index of the last cluster that a read of `total` bytes at `offset` looks up. */
  function LastIndex(size: nat, offset: nat, total: nat): nat
    requires size > 0
  {
    Idx(size, offset) + (if total == 0 then 0 else Idx(size, total - 1))
  }

  lemma LastIndexStep(size: nat, offset: nat, total: nat)
    requires 0 < size < total
    ensures LastIndex(size, offset, total) == LastIndex(size, offset + size, total - size)
    ensures LastIndex(size, offset, total) > Idx(size, offset)
  {
    hide Idx;
    DivAdd(offset, size);
    DivAdd(total - size - 1, size);
  }

  lemma LastIndexOne(size: nat, offset: nat, total: nat)
    requires size > 0 && total <= size
    ensures LastIndex(size, offset, total) == Idx(size, offset)
  {
    hide Idx;
    if total > 0 { IndexIs(total - 1, size, 0, total - 1); }
  }

  // ---------------------------------------------------------------- what a read touches

  function Range(from: int, n: nat): (s: seq<int>)
    ensures |s| == n && forall i | 0 <= i < n :: s[i] == from + i
  {
    seq(n, i => from + i)
  }

  /** Where the chunk that starts at byte `offset` of the file starts on the disk. */
  function ChunkPos(v: Volume, start: int, offset: nat): int
    requires v.Valid() && Chain(v, start, Idx(v.ClusterSize(), offset)).Some?
  {
    v.ClusterPos(Chain(v, start, Idx(v.ClusterSize(), offset)).value) + Off(v.ClusterSize(), offset)
  }

  /** Image positions that the chunked read takes its bytes from, in order: each chunk starts at the offset
      within the cluster its first byte belongs to, and all but the last are a whole cluster long. */
  function CodePositions(v: Volume, start: int, offset: nat, total: nat): (s: seq<int>)
    requires v.Valid() && Chain(v, start, LastIndex(v.ClusterSize(), offset, total)).Some?
    ensures |s| == total
    decreases total
  {
    hide *;
    var size := v.ClusterSize();
    if total <= size then
      LastIndexOne(size, offset, total);
      Range(ChunkPos(v, start, offset), total)
    else
      LastIndexStep(size, offset, total);
      ChainPrefix(v, start, Idx(size, offset), LastIndex(size, offset, total));
      Range(ChunkPos(v, start, offset), size) + CodePositions(v, start, offset + size, total - size)
  }

  /** Byte `x` of any chunked read, wherever it starts: its chunk's cluster is as many clusters behind the first as
      there are chunks before it, and in there it lies as far behind the start as in the chunk. */
  lemma {:induction false} CodeByte(v: Volume, start: int, offset: nat, total: nat, x: nat)
    requires v.Valid() && Chain(v, start, LastIndex(v.ClusterSize(), offset, total)).Some? && x < total
    ensures var size := v.ClusterSize();
            var c := Chain(v, start, Idx(size, offset) + Idx(size, x));
            && c.Some?
            && CodePositions(v, start, offset, total)[x] == v.ClusterPos(c.value) + Off(size, offset) + Off(size, x)
    decreases total
  {
    hide Idx, Off, Chain, LastIndex;
    var size := v.ClusterSize();
    if total <= size {
      LastIndexOne(size, offset, total);
      IndexIs(x, size, 0, x);
    } else {
      LastIndexStep(size, offset, total);
      ChainPrefix(v, start, Idx(size, offset), LastIndex(size, offset, total));
      if x < size {
        IndexIs(x, size, 0, x);
      } else {
        DivAdd(offset, size);
        DivAdd(x - size, size);
        CodeByte(v, start, offset + size, total - size, x - size);
      }
    }
  }

  /** The file has its first `n` bytes. */
  ghost predicate HasBytes(v: Volume, start: int, n: nat)
    requires v.Valid()
  {
    forall p: nat | p < n :: Chain(v, start, Idx(v.ClusterSize(), p)).Some?
  }

  /** Image position of byte `p` of the file. */
  function FilePosition(v: Volume, start: int, p: nat): int
    requires v.Valid() && Chain(v, start, Idx(v.ClusterSize(), p)).Some?
  {
    v.ClusterPos(Chain(v, start, Idx(v.ClusterSize(), p)).value) + Off(v.ClusterSize(), p)
  }

  /** Image positions of bytes `offset .. offset + n` of the file. */
  ghost function FilePositions(v: Volume, start: int, offset: nat, n: nat): (s: seq<int>)
    requires v.Valid() && HasBytes(v, start, offset + n)
    ensures |s| == n
    ensures forall x | 0 <= x < n ::
              Chain(v, start, Idx(v.ClusterSize(), offset + x)).Some? && s[x] == FilePosition(v, start, offset + x)
  {
    seq(n, x requires 0 <= x < n => FilePosition(v, start, offset + x))
  }

  /** The chunks that run over the end of their cluster run on into the file's next cluster, because it
      is the next one on the disk. */
  ghost predicate RunsOn(v: Volume, start: int, offset: nat, total: nat)
    requires v.Valid()
    decreases total
  {
    var size := v.ClusterSize();
    && (Off(size, offset) + (if total <= size then total else size) > size ==> Consecutive(v, start, Idx(size, offset)))
    && (total > size ==> RunsOn(v, start, offset + size, total - size))
  }

  ghost predicate Consecutive(v: Volume, start: int, k: nat)
    requires v.Valid()
  {
    && Chain(v, start, k).Some? && Chain(v, start, k + 1).Some?
    && Chain(v, start, k + 1).value == Chain(v, start, k).value + 1
  }

  /** Clusters lie one after the other. */
  lemma NextCluster(v: Volume, c: int, c': int)
    requires v.Valid()
    ensures v.ClusterPos(c') == v.ClusterPos(c) + v.ClusterSize() <==> c' == c + 1
  {
    var n := v.sectorsPerCluster;
    var d := c' - c - 1;
    assert v.ClusterPos(c') - v.ClusterPos(c) - v.ClusterSize() == d * n * SECTOR_SIZE by {
      assert (c' - 2) * n - (c - 2) * n == (c' - c) * n;
      assert (c' - c) * n == d * n + n;
    }
    MulAtLeast(d, n);
  }

  /** Byte `x` of a chunk. */
  lemma FileInChunk(v: Volume, start: int, offset: nat, x: nat)
    requires v.Valid() && x < v.ClusterSize() && HasBytes(v, start, offset + x + 1)
    ensures var size := v.ClusterSize();
            && Chain(v, start, Idx(size, offset)).Some? && Chain(v, start, Idx(size, offset + x)).Some?
            && (Off(size, offset) + x < size ==> FilePosition(v, start, offset + x) == ChunkPos(v, start, offset) + x)
            && (Off(size, offset) + x >= size ==>
                  && Chain(v, start, Idx(size, offset) + 1).Some?
                  && FilePosition(v, start, offset + x)
                     == v.ClusterPos(Chain(v, start, Idx(size, offset) + 1).value) + Off(size, offset) + x - size)
  {
    hide Idx;
    hide Off;
    hide Chain;
    DivNear(offset, v.ClusterSize(), x);
    assert offset < offset + x + 1 && offset + x < offset + x + 1;
  }

  /** One chunk takes its bytes from their places in the file exactly when it stays in its cluster or the
      file goes on in the next cluster of the disk. */
  lemma ChunkExact(v: Volume, start: int, offset: nat, n: nat)
    requires v.Valid() && 0 < n <= v.ClusterSize() && HasBytes(v, start, offset + n)
    ensures Chain(v, start, Idx(v.ClusterSize(), offset)).Some?
    ensures FilePositions(v, start, offset, n) == Range(ChunkPos(v, start, offset), n)
            <==> (Off(v.ClusterSize(), offset) + n > v.ClusterSize() ==>
                Consecutive(v, start, Idx(v.ClusterSize(), offset)))
  {
    hide Idx;
    hide Off;
    hide Chain;
    hide FilePosition;
    FileInChunk(v, start, offset, 0);
    var size := v.ClusterSize();
    var r, k := Off(size, offset), Idx(size, offset);
    var file, code := FilePositions(v, start, offset, n), Range(ChunkPos(v, start, offset), n);
    if r + n > size {
      FileInChunk(v, start, offset, size - r);
      NextCluster(v, Chain(v, start, k).value, Chain(v, start, k + 1).value);
      assert file[size - r] == FilePosition(v, start, offset + (size - r));
      if file == code { assert file[size - r] == code[size - r]; }
    }
    if r + n > size ==> Consecutive(v, start, k) {
      forall x: nat | x < n ensures file[x] == code[x] {
        FileInChunk(v, start, offset, x);
      }
    }
  }

  lemma FileSplit(v: Volume, start: int, offset: nat, a: nat, b: nat)
    requires v.Valid() && HasBytes(v, start, offset + a + b)
    ensures HasBytes(v, start, offset + a)
    ensures FilePositions(v, start, offset, a + b)
            == FilePositions(v, start, offset, a) + FilePositions(v, start, offset + a, b)
  {
    hide FilePosition;
    var whole, front := FilePositions(v, start, offset, a + b), FilePositions(v, start, offset, a);
    var back := FilePositions(v, start, offset + a, b);
    forall x | 0 <= x < a + b ensures whole[x] == (front + back)[x] {
      if x >= a { assert back[x - a] == FilePosition(v, start, offset + a + (x - a)); }
    }
  }

  /** The chunked read takes every byte from its place in the file exactly when each chunk that runs over the
      end of its cluster runs on into the file's next cluster. */
  lemma {:induction false} ReadExact(v: Volume, start: int, offset: nat, total: nat)
    requires v.Valid() && total > 0 && HasBytes(v, start, offset + total)
    ensures Chain(v, start, LastIndex(v.ClusterSize(), offset, total)).Some?
    ensures CodePositions(v, start, offset, total) == FilePositions(v, start, offset, total)
            <==> RunsOn(v, start, offset, total)
    decreases total
  {
    hide Idx;
    hide Off;
    hide Chain;
    hide FilePositions;
    hide Consecutive;
    hide ChunkPos;
    hide LastIndex;
    hide HasBytes;
    var size := v.ClusterSize();
    if total <= size {
      LastIndexOne(size, offset, total);
      ChunkExact(v, start, offset, total);
    } else {
      FileSplit(v, start, offset, size, total - size);
      ChunkExact(v, start, offset, size);
      LastIndexStep(size, offset, total);
      ReadExact(v, start, offset + size, total - size);
      SameParts(Range(ChunkPos(v, start, offset), size), CodePositions(v, start, offset + size, total - size),
                FilePositions(v, start, offset, size), FilePositions(v, start, offset + size, total - size));
    }
  }

  lemma SameParts(a: seq<int>, b: seq<int>, c: seq<int>, d: seq<int>)
    requires |a| == |c|
    ensures a + b == c + d <==> a == c && b == d
  {
    if a + b == c + d {
      assert (a + b)[..|a|] == a && (c + d)[..|c|] == c;
      assert (a + b)[|a|..] == b && (c + d)[|c|..] == d;
    }
  }

  /** Reads from a cluster boundary, and reads inside one cluster, run on. */
  lemma {:induction false} AlignedRunsOn(v: Volume, start: int, offset: nat, total: nat)
    requires v.Valid()
    requires Off(v.ClusterSize(), offset) == 0 || Off(v.ClusterSize(), offset) + total <= v.ClusterSize()
    ensures RunsOn(v, start, offset, total)
    decreases total
  {
    hide Idx;
    hide Off;
    hide Consecutive;
    if total > v.ClusterSize() {
      DivAdd(offset, v.ClusterSize());
      AlignedRunsOn(v, start, offset + v.ClusterSize(), total - v.ClusterSize());
    }
  }

  // ---------------------------------------------------------------- bytes

  /** The image's byte at a position. */
  function At(v: Volume, p: int): Byte { if p < 0 then 0 else v.image(p) }

  function Fetch(v: Volume, ps: seq<int>): (s: seq<Byte>)
    ensures |s| == |ps| && forall i | 0 <= i < |ps| :: s[i] == At(v, ps[i])
  {
    seq(|ps|, i requires 0 <= i < |ps| => At(v, ps[i]))
  }

  /** The concatenation of the first `k` clusters of the chain. */
  ghost function ChainBytes(v: Volume, start: int, k: nat): seq<Byte>
    requires v.Valid() && (k > 0 ==> Chain(v, start, k - 1).Some?)
  {
    if k == 0 then []
    else
      ChainPrefix(v, start, if k >= 2 then k - 2 else 0, k - 1);
      ChainBytes(v, start, k - 1) + Fetch(v, Range(v.ClusterPos(Chain(v, start, k - 1).value), v.ClusterSize()))
  }

  /** Byte `p` of the concatenation is the image's byte at the file position of `p`. */
  lemma {:induction false} ChainByte(v: Volume, start: int, k: nat, p: nat)
    requires v.Valid() && (k > 0 ==> Chain(v, start, k - 1).Some?) && p < k * v.ClusterSize()
    ensures |ChainBytes(v, start, k)| == k * v.ClusterSize()
    ensures Idx(v.ClusterSize(), p) < k && Chain(v, start, Idx(v.ClusterSize(), p)).Some?
    ensures ChainBytes(v, start, k)[p] == At(v, FilePosition(v, start, p))
  {
    hide Idx;
    hide Off;
    hide Chain;
    hide At;
    var size := v.ClusterSize();
    ChainPrefix(v, start, if k >= 2 then k - 2 else 0, k - 1);
    ChainBytesLen(v, start, k - 1);
    assert k * size == (k - 1) * size + size;
    if p < (k - 1) * size {
      ChainByte(v, start, k - 1, p);
    } else {
      IndexIs(p, size, k - 1, p - (k - 1) * size);
    }
  }

  lemma {:induction false} ChainBytesLen(v: Volume, start: int, k: nat)
    requires v.Valid() && (k > 0 ==> Chain(v, start, k - 1).Some?)
    ensures |ChainBytes(v, start, k)| == k * v.ClusterSize()
  {
    hide Chain;
    if k > 0 {
      ChainPrefix(v, start, if k >= 2 then k - 2 else 0, k - 1);
      ChainBytesLen(v, start, k - 1);
      assert k * v.ClusterSize() == (k - 1) * v.ClusterSize() + v.ClusterSize();
    }
  }

  /** An aligned read, or one inside a cluster, looks up exactly the clusters up to that of its last byte. */
  lemma {:induction false} LastByteIndex(size: nat, offset: nat, total: nat)
    requires size > 0 && total > 0 && (Off(size, offset) == 0 || Off(size, offset) + total <= size)
    ensures LastIndex(size, offset, total) == Idx(size, offset + total - 1)
    decreases total
  {
    hide Idx, Off, LastIndex;
    if total <= size {
      LastIndexOne(size, offset, total);
      DivNear(offset, size, total - 1);
    } else {
      LastIndexStep(size, offset, total);
      DivAdd(offset, size);
      LastByteIndex(size, offset + size, total - size);
    }
  }

  /** A file reaches as far as the cluster of its last byte. */
  lemma BytesUpTo(v: Volume, start: int, n: nat)
    requires v.Valid() && n > 0
    ensures HasBytes(v, start, n) <==> Chain(v, start, Idx(v.ClusterSize(), n - 1)).Some?
    ensures n <= (Idx(v.ClusterSize(), n - 1) + 1) * v.ClusterSize()
  {
    var size := v.ClusterSize();
    assert n - 1 == ((n - 1) / size) * size + (n - 1) % size;
    if Chain(v, start, Idx(size, n - 1)).Some? {
      forall p: nat | p < n ensures Chain(v, start, Idx(size, p)).Some? {
        IdxMonotone(size, p, n - 1);
        ChainPrefix(v, start, Idx(size, p), Idx(size, n - 1));
      }
    }
  }

  lemma IdxMonotone(size: nat, p: nat, q: nat)
    requires size > 0 && p <= q
    ensures Idx(size, p) <= Idx(size, q)
  {
    var d := p / size - q / size;
    assert p == (p / size) * size + p % size && q == (q / size) * size + q % size;
    assert d * size == (p / size) * size - (q / size) * size;
    MulAtLeast(d, size);
  }

  /** An aligned read, or one inside a cluster, refines a slice of the concatenated chain: it finds all its
      clusters exactly when the first `(offset + total - 1) / size` successors hit no stop value, and then its
      bytes are that slice. */
  lemma ReadIsSlice(v: Volume, start: int, offset: nat, total: nat)
    requires v.Valid() && total > 0
    requires Off(v.ClusterSize(), offset) == 0 || Off(v.ClusterSize(), offset) + total <= v.ClusterSize()
    ensures Chain(v, start, LastIndex(v.ClusterSize(), offset, total)).Some?
            <==> Chain(v, start, Idx(v.ClusterSize(), offset + total - 1)).Some?
    ensures Chain(v, start, Idx(v.ClusterSize(), offset + total - 1)).Some? ==>
              var all := ChainBytes(v, start, Idx(v.ClusterSize(), offset + total - 1) + 1);
              && offset + total <= |all|
              && Fetch(v, CodePositions(v, start, offset, total)) == all[offset..offset + total]
  {
    hide Chain;
    hide ChainBytes;
    hide CodePositions;
    hide FilePosition;
    hide LastIndex;
    hide At;
    var size := v.ClusterSize();
    var k := Idx(size, offset + total - 1);
    LastByteIndex(size, offset, total);
    if Chain(v, start, k).Some? {
      BytesUpTo(v, start, offset + total);
      AlignedRunsOn(v, start, offset, total);
      ReadExact(v, start, offset, total);
      ChainBytesLen(v, start, k + 1);
      var all := ChainBytes(v, start, k + 1);
      var ps := FilePositions(v, start, offset, total);
      forall j | 0 <= j < total ensures Fetch(v, ps)[j] == all[offset + j] {
        ChainByte(v, start, k + 1, offset + j);
      }
    }
  }

  // ---------------------------------------------------------------- the reader

  class Reader {
    const v: Volume
    const fatStream: DiskStream
    const clusterStream: DiskStream

    constructor (vol: Volume, f: DiskStream, c: DiskStream)
      ensures v == vol && fatStream == f && clusterStream == c
    {
      v, fatStream, clusterStream := vol, f, c;
    }

    ghost predicate Valid() {
      && v.Valid() && fatStream != clusterStream
      && fatStream.disk == clusterStream.disk && fatStream.disk.image == v.image
    }

    /** fat16_get_fat_entry */
    method GetFatEntry(cluster: int) returns (res: int)
      requires Valid() && 0 <= v.EntryPos(cluster) <= INT_MAX - 2
      modifies fatStream, fatStream.disk
      ensures res == v.Successor(cluster)
    {
      var fatTablePosition := v.reservedSectors * SECTOR_SIZE;
      res := fatStream.Seek(Signed(Wrap(fatTablePosition * (cluster * 2))));
      if res < 0 {
        return;
      }
      var result := new Byte[2];
      res := fatStream.Read(result, 0, 2);
      if res < 0 {
        return;
      }
      assert result[..] == Slice(v.image, v.EntryPos(cluster), 2);
      assert result[..][0] == v.image(v.EntryPos(cluster)) && result[..][1] == v.image(v.EntryPos(cluster) + 1);
      var low: int, high: int := result[0], result[1];
      res := low + 0x100 * high;
    }

    /** fat16_get_cluster_for_offset */
    method GetClusterForOffset(startingCluster: int, offset: nat) returns (res: int)
      requires Valid() && startingCluster >= 0 && Walkable(v, startingCluster, Idx(v.ClusterSize(), offset))
      modifies fatStream, fatStream.disk
      ensures var c := Chain(v, startingCluster, Idx(v.ClusterSize(), offset)); res == if c.Some? then c.value else -EIO
      ensures res >= 0 <==> Chain(v, startingCluster, Idx(v.ClusterSize(), offset)).Some?
    {
      var clusterToUse := startingCluster;
      var clustersAhead := Idx(v.ClusterSize(), offset);
      for i := 0 to clustersAhead
        invariant Chain(v, startingCluster, i) == Some(clusterToUse) && clusterToUse >= 0
      {
        assert v.Reachable(Chain(v, startingCluster, i).value);
        var entry := GetFatEntry(clusterToUse);
        assert Stops(entry) ==> Chain(v, startingCluster, i + 1) == None;
        if entry == 0xFF8 || entry == 0xFFF {
          NoneAfter(v, startingCluster, i + 1, clustersAhead);
          return -EIO;
        }
        if entry == 0xFF7 {
          NoneAfter(v, startingCluster, i + 1, clustersAhead);
          return -EIO;
        }
        if entry == 0xFF0 || entry == 0xFF6 {
          NoneAfter(v, startingCluster, i + 1, clustersAhead);
          return -EIO;
        }
        if entry == 0x00 {
          NoneAfter(v, startingCluster, i + 1, clustersAhead);
          return -EIO;
        }
        clusterToUse := entry;
      }
      res := clusterToUse;
    }

    /** fat16_read_internal_from_stream: one chunk, then the rest from the chain's start again. */
    method ReadInternalFromStream(cluster: int, offset: nat, total: nat, out: array<Byte>, at: nat) returns (res: int)
      requires Valid() && cluster >= 0 && at + total <= out.Length
      requires Walkable(v, cluster, LastIndex(v.ClusterSize(), offset, total))
      modifies fatStream, clusterStream, fatStream.disk, out
      ensures res == 0 || res == -EIO
      ensures res == 0 <==> Chain(v, cluster, LastIndex(v.ClusterSize(), offset, total)).Some?
      ensures res == 0 ==> out[..] == Written(old(out[..]), at, Fetch(v, CodePositions(v, cluster, offset, total)))
      ensures forall i | 0 <= i < out.Length && !(at <= i < at + total) :: out[i] == old(out[i])
      decreases total
    {
      hide Idx;
      hide Off;
      hide Chain;
      hide LastIndex;
      hide Written;
      hide Fetch;
      hide Range;
      var size := v.ClusterSize();
      ChunkFacts(v, cluster, offset, total);
      var clusterToUse := GetClusterForOffset(cluster, offset);
      if clusterToUse < 0 {
        res := clusterToUse;
        return;
      }
      var offsetFromCluster := Off(size, offset);
      var startingSector := v.endingSectorPos + (clusterToUse - 2) * v.sectorsPerCluster;
      var startingPos := startingSector * SECTOR_SIZE + offsetFromCluster;
      var totalToRead := if total > size then size else total;
      res := clusterStream.Seek(startingPos);
      if res != 0 {
        return;
      }
      res := clusterStream.Read(out, at, totalToRead);
      if res != 0 {
        return;
      }
      SliceIsFetch(v, startingPos, totalToRead);
      WrittenOutside(old(out[..]), at, Slice(v.image, startingPos, totalToRead));
      if total - totalToRead > 0 {
        res := ReadInternalFromStream(cluster, offset + totalToRead, total - totalToRead, out, at + totalToRead);
        if res == 0 {
          WrittenParts(v, old(out[..]), at, Range(startingPos, size),
                       CodePositions(v, cluster, offset + size, total - size));
        }
      }
    }
  }

  lemma {:induction false} NoneAfter(v: Volume, start: int, j: nat, k: nat)
    requires v.Valid() && j <= k && Chain(v, start, j) == None
    ensures Chain(v, start, k) == None
  {
    if Chain(v, start, k).Some? { ChainPrefix(v, start, j, k); }
  }

  /** What one chunk of a walkable read needs and what its recursion needs. */
  lemma ChunkFacts(v: Volume, start: int, offset: nat, total: nat)
    requires v.Valid() && Walkable(v, start, LastIndex(v.ClusterSize(), offset, total))
    ensures var size := v.ClusterSize();
            var last := LastIndex(size, offset, total);
            && Walkable(v, start, Idx(size, offset))
            && (Chain(v, start, last).Some? ==> Chain(v, start, Idx(size, offset)).Some?)
            && (Chain(v, start, Idx(size, offset)).Some? ==> v.Reachable(Chain(v, start, Idx(size, offset)).value))
            && (total <= size ==> last == Idx(size, offset))
            && (total > size ==> last == LastIndex(size, offset + size, total - size))
  {
    hide Idx;
    hide LastIndex;
    var size := v.ClusterSize();
    var last := LastIndex(size, offset, total);
    if total <= size { LastIndexOne(size, offset, total); } else { LastIndexStep(size, offset, total); }
    if Chain(v, start, last).Some? { ChainPrefix(v, start, Idx(size, offset), last); }
  }

  lemma SliceIsFetch(v: Volume, pos: nat, n: nat)
    ensures Slice(v.image, pos, n) == Fetch(v, Range(pos, n))
  {
  }

  lemma WrittenOutside(out: seq<Byte>, at: nat, bytes: seq<Byte>)
    requires at + |bytes| <= |out|
    ensures forall i | 0 <= i < |out| && !(at <= i < at + |bytes|) :: Written(out, at, bytes)[i] == out[i]
  {
  }

  lemma WrittenParts(v: Volume, out: seq<Byte>, at: nat, a: seq<int>, b: seq<int>)
    requires at + |a| + |b| <= |out|
    ensures Written(Written(out, at, Fetch(v, a)), at + |a|, Fetch(v, b)) == Written(out, at, Fetch(v, a + b))
  {
    assert Fetch(v, a + b) == Fetch(v, a) + Fetch(v, b);
  }

  // ---------------------------------------------------------------- fat16_read

  /** `n` pieces of `size` bytes, one after the other in the file, can all be walked to. */
  ghost predicate PiecesWalkable(v: Volume, start: int, pos: nat, size: nat, n: nat)
    requires v.Valid()
  {
    n == 0 || (PiecesWalkable(v, start, pos, size, n - 1)
               && Walkable(v, start, LastIndex(v.ClusterSize(), pos + (n - 1) * size, size)))
  }

  ghost predicate PiecesThere(v: Volume, start: int, pos: nat, size: nat, n: nat)
    requires v.Valid()
  {
    n == 0 || (PiecesThere(v, start, pos, size, n - 1)
               && Chain(v, start, LastIndex(v.ClusterSize(), pos + (n - 1) * size, size)).Some?)
  }

  /** The bytes of the pieces, as the reader fetches them. */
  ghost function Pieces(v: Volume, start: int, pos: nat, size: nat, n: nat): (s: seq<Byte>)
    requires v.Valid() && PiecesThere(v, start, pos, size, n)
    ensures |s| == n * size
  {
    if n == 0 then []
    else Pieces(v, start, pos, size, n - 1) + Fetch(v, CodePositions(v, start, pos + (n - 1) * size, size))
  }

  /** Each of `n` records of `size` bytes from `pos` on starts on a cluster boundary or stays in one cluster. */
  ghost predicate Aligned(v: Volume, pos: nat, size: nat, n: nat)
    requires v.Valid()
  {
    forall i: nat | i < n ::
      Off(v.ClusterSize(), pos + i * size) == 0 || Off(v.ClusterSize(), pos + i * size) + size <= v.ClusterSize()
  }

  /** Reading `n` pieces reads one slice of the file, when each piece starts on a cluster boundary or stays
      in one cluster. */
  lemma {:induction false} PiecesAreSlice(v: Volume, start: int, pos: nat, size: nat, n: nat, k: nat)
    requires v.Valid() && size > 0 && PiecesThere(v, start, pos, size, n)
    requires Aligned(v, pos, size, n)
    requires Chain(v, start, k).Some? && pos + n * size <= |ChainBytes(v, start, k + 1)|
    ensures Pieces(v, start, pos, size, n) == ChainBytes(v, start, k + 1)[pos..pos + n * size]
  {
    hide Idx;
    hide Off;
    hide Chain;
    hide ChainBytes;
    hide CodePositions;
    hide LastIndex;
    hide Fetch;
    if n > 0 {
      assert n * size == (n - 1) * size + size;
      PiecesAreSlice(v, start, pos, size, n - 1, k);
      var at := pos + (n - 1) * size;
      assert Off(v.ClusterSize(), at) == 0 || Off(v.ClusterSize(), at) + size <= v.ClusterSize();
      PieceIsSlice(v, start, at, size, k);
    }
  }

  /** A file in the clusters 2 and 5 of a volume of one-sector clusters, whose second cluster starts with a 7. */
  function Scattered(): (v: Volume)
    ensures v.Valid()
  {
    Volume((p: nat) => if p == 2048 then 5 else if p == 103 * SECTOR_SIZE then 7 else 0, 1, 1, 100)
  }

  lemma ScatteredChain()
    ensures Chain(Scattered(), 2, 0) == Some(2) && Chain(Scattered(), 2, 1) == Some(5)
  {
    var v := Scattered();
    assert Chain(v, 2, 0) == Some(2) && v.EntryPos(2) == 2048 && v.Successor(2) == 5;
  }

  /** One element of a cluster's size read from the middle of a cluster is not the file's slice: its second half
      comes from the cluster behind on the disk, where the file does not go on. */
  lemma ReadFromTheMiddleMisreads()
    ensures var v := Scattered();
            && Chain(v, 2, 1) == Some(5) && PiecesThere(v, 2, 256, 512, 1)
            && |ChainBytes(v, 2, 2)| == 1024 && ChainBytes(v, 2, 2)[512] == 7
            && Pieces(v, 2, 256, 512, 1)[256] == 0
  {
    ScatteredChain();
    hide Chain, Scattered;
    var v := Scattered();
    ScatteredSizes();
    ChainBytesLen(v, 2, 2);
    ChainByte(v, 2, 2, 512);
    LastIndexOne(512, 256, 512);
    assert Pieces(v, 2, 256, 512, 1) == Pieces(v, 2, 256, 512, 0) + Fetch(v, CodePositions(v, 2, 256, 512));
  }

  lemma ScatteredSizes()
    ensures var v := Scattered();
            && v.ClusterSize() == 512 && v.ClusterPos(2) == 51200 && v.ClusterPos(5) == 52736
            && At(v, 51712) == 0 && At(v, 52736) == 7
  {
  }

  lemma PieceIsSlice(v: Volume, start: int, at: nat, size: nat, k: nat)
    requires v.Valid() && size > 0 && Chain(v, start, LastIndex(v.ClusterSize(), at, size)).Some?
    requires Off(v.ClusterSize(), at) == 0 || Off(v.ClusterSize(), at) + size <= v.ClusterSize()
    requires Chain(v, start, k).Some? && at + size <= |ChainBytes(v, start, k + 1)|
    ensures Fetch(v, CodePositions(v, start, at, size)) == ChainBytes(v, start, k + 1)[at..at + size]
  {
    hide Chain;
    hide ChainBytes;
    hide CodePositions;
    hide LastIndex;
    hide At;
    hide FilePosition;
    ReadIsSlice(v, start, at, size);
    var j := Idx(v.ClusterSize(), at + size - 1);
    assert j == (at + size - 1) / v.ClusterSize();
    hide Idx;
    hide Off;
    var long, short := ChainBytes(v, start, k + 1), ChainBytes(v, start, j + 1);
    var x, y := long[at..at + size], short[at..at + size];
    forall i | 0 <= i < size ensures x[i] == y[i] {
      CommonByte(v, start, j, k, at + i);
    }
    assert x == y;
  }

  lemma CommonByte(v: Volume, start: int, j: nat, k: nat, p: nat)
    requires v.Valid() && Chain(v, start, j).Some? && Chain(v, start, k).Some?
    requires p < |ChainBytes(v, start, j + 1)| && p < |ChainBytes(v, start, k + 1)|
    ensures ChainBytes(v, start, j + 1)[p] == ChainBytes(v, start, k + 1)[p]
  {
    hide Idx;
    hide Chain;
    hide ChainBytes;
    hide At;
    hide FilePosition;
    ChainBytesLen(v, start, j + 1);
    ChainBytesLen(v, start, k + 1);
    ChainByte(v, start, j + 1, p);
    ChainByte(v, start, k + 1, p);
  }

  /** The buffer starts with the `n` bytes of the file from `pos` on, as far as the file has that many. */
  ghost predicate HoldsFile(v: Volume, start: int, pos: nat, n: nat, out: seq<Byte>)
    requires v.Valid()
  {
    n <= |out| && forall k: nat, j: nat |
      Chain(v, start, k).Some? && pos + n <= |ChainBytes(v, start, k + 1)| && j < n ::
      out[j] == ChainBytes(v, start, k + 1)[pos + j]
  }

  lemma PiecesHeld(v: Volume, start: int, pos: nat, size: nat, n: nat, was: seq<Byte>, now: seq<Byte>)
    requires v.Valid() && PiecesThere(v, start, pos, size, n) && n * size <= |was|
    requires now == Written(was, 0, Pieces(v, start, pos, size, n))
    ensures |now| == |was| && forall j | n * size <= j < |was| :: now[j] == was[j]
    ensures size > 0 && Aligned(v, pos, size, n) ==> HoldsFile(v, start, pos, n * size, now)
  {
    hide Chain, ChainBytes, Aligned, Written;
    WrittenBytes(was, 0, Pieces(v, start, pos, size, n));
    if size > 0 && Aligned(v, pos, size, n) {
      forall k: nat, j: nat |
        Chain(v, start, k).Some? && pos + n * size <= |ChainBytes(v, start, k + 1)| && j < n * size
        ensures now[j] == ChainBytes(v, start, k + 1)[pos + j]
      {
        PiecesAreSlice(v, start, pos, size, n, k);
        assert ChainBytes(v, start, k + 1)[pos..pos + n * size][j] == ChainBytes(v, start, k + 1)[pos + j];
      }
    }
  }

  /** fat16_read: `nmemb` reads of `size` bytes from the descriptor's position on; the position stays. */
  method Read(r: Reader, firstCluster: nat, pos: nat, size: nat, nmemb: nat, out: array<Byte>) returns (res: int)
    requires r.Valid() && nmemb * size <= out.Length && PiecesWalkable(r.v, firstCluster, pos, size, nmemb)
    modifies r.fatStream, r.clusterStream, r.fatStream.disk, out
    ensures res == if PiecesThere(r.v, firstCluster, pos, size, nmemb) then nmemb else -EIO
    ensures PiecesThere(r.v, firstCluster, pos, size, nmemb) ==>
              out[..] == Written(old(out[..]), 0, Pieces(r.v, firstCluster, pos, size, nmemb))
    ensures res >= 0 && size > 0 && Aligned(r.v, pos, size, nmemb) ==>
              HoldsFile(r.v, firstCluster, pos, nmemb * size, out[..])
    ensures res >= 0 ==> forall j | nmemb * size <= j < out.Length :: out[j] == old(out[j])
  {
    hide ChainBytes;
    hide HoldsFile;
    hide Aligned;
    hide Idx;
    hide Off;
    hide Chain;
    hide LastIndex;
    hide CodePositions;
    hide Fetch;
    hide Walkable;
    hide PiecesWalkable;
    hide Written;
    WrittenNothing(out[..]);
    res := 0;
    var offset, at := pos, 0;
    for i := 0 to nmemb
      invariant PiecesThere(r.v, firstCluster, pos, size, i)
      invariant offset == pos + i * size && at == i * size
      invariant at <= out.Length && out[..] == Written(old(out[..]), 0, Pieces(r.v, firstCluster, pos, size, i))
    {
      PiecesFirst(r.v, firstCluster, pos, size, i + 1, nmemb);
      StepFits(i, nmemb, size);
      ghost var before := out[..];
      res := r.ReadInternalFromStream(firstCluster, offset, size, out, at);
      if res < 0 {
        NoPieces(r.v, firstCluster, pos, size, i + 1, nmemb);
        return;
      }
      WrittenMore(old(out[..]), Pieces(r.v, firstCluster, pos, size, i),
                  Fetch(r.v, CodePositions(r.v, firstCluster, offset, size)));
      offset, at := offset + size, at + size;
    }
    res := nmemb;
    PiecesHeld(r.v, firstCluster, pos, size, nmemb, old(out[..]), out[..]);
    assert forall j | 0 <= j < out.Length :: out[j] == out[..][j];
  }

  lemma StepFits(i: nat, n: nat, size: nat)
    requires i < n
    ensures i * size + size == (i + 1) * size <= n * size
  {
    assert (n - i - 1) * size >= 0;
    assert n * size == (i + 1) * size + (n - i - 1) * size;
  }

  lemma WrittenNothing(out: seq<Byte>)
    ensures Written(out, 0, []) == out
  {
  }

  lemma WrittenMore(out: seq<Byte>, a: seq<Byte>, b: seq<Byte>)
    requires |a| + |b| <= |out|
    ensures Written(Written(out, 0, a), |a|, b) == Written(out, 0, a + b)
  {
  }

  lemma {:induction false} PiecesFirst(v: Volume, start: int, pos: nat, size: nat, i: nat, n: nat)
    requires v.Valid() && i <= n && PiecesWalkable(v, start, pos, size, n)
    ensures PiecesWalkable(v, start, pos, size, i)
    decreases n
  {
    if i < n { PiecesFirst(v, start, pos, size, i, n - 1); }
  }

  lemma {:induction false} NoPieces(v: Volume, start: int, pos: nat, size: nat, i: nat, n: nat)
    requires v.Valid() && i <= n && !PiecesThere(v, start, pos, size, i)
    ensures !PiecesThere(v, start, pos, size, n)
    decreases n
  {
    if i < n { NoPieces(v, start, pos, size, i, n - 1); }
  }
}
