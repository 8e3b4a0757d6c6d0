/**
  The sender's chunk plan (client.py): how many chunks a file of a given size
  is cut into, where each chunk starts, how many bytes it carries, and which
  bytes of the source those are.
 */
module ChunkPlan {
  import opened Streams

  /** The sender's fixed chunk size, 8 MiB. */
  const ChunkSize: nat := 8 * 1024 * 1024

  lemma DivMod(a: nat, d: nat)
    requires d > 0
    ensures a == (a / d) * d + a % d
    ensures 0 <= a % d < d
  {
  }

  /**
    Byte position where chunk `i` starts: `i` whole chunks into the file.
    Stated step by step so that proofs about offsets stay linear;
    `OffsetIsProduct` shows it is the product `i * chunkSize`.
   */
  function Offset(chunkSize: nat, i: nat): nat
  {
    if i == 0 then 0 else Offset(chunkSize, i - 1) + chunkSize
  }

  lemma {:induction false} OffsetIsProduct(chunkSize: nat, i: nat)
    ensures Offset(chunkSize, i) == i * chunkSize
  {
    if i > 0 {
      OffsetIsProduct(chunkSize, i - 1);
    }
  }

  /** A later chunk starts at least one whole chunk further on. */
  lemma {:induction false} OffsetMono(chunkSize: nat, i: nat, j: nat)
    requires i < j
    ensures Offset(chunkSize, i) + chunkSize <= Offset(chunkSize, j)
  {
    if i + 1 < j {
      OffsetMono(chunkSize, i, j - 1);
    }
  }

  /**
    The number of chunks. A file no larger than one chunk (an empty file
    included) is sent as exactly one chunk; a larger one as the least number
    of chunks whose combined capacity covers it.
   */
  function TotalChunks(fileSize: nat, chunkSize: nat): (n: nat)
    requires chunkSize > 0
    ensures n >= 1
    ensures fileSize <= chunkSize ==> n == 1
    ensures 0 < fileSize ==> Offset(chunkSize, n - 1) < fileSize <= Offset(chunkSize, n)
  {
    DivMod(fileSize, chunkSize);
    var n := if chunkSize < fileSize then
        var q := fileSize / chunkSize;
        if fileSize % chunkSize != 0 then q + 1 else q
      else
        1;
    OffsetIsProduct(chunkSize, n);
    OffsetIsProduct(chunkSize, n - 1);
    n
  }

  /**
    With the program's chunk size of 8 MiB, a file is sent as a single chunk
    exactly when it is at most 8 MiB, and a file of 20 MiB goes as three
    chunks, the last one carrying 4 MiB.
   */
  lemma EightMiBChunks(fileSize: nat)
    ensures TotalChunks(fileSize, ChunkSize) == 1 <==> fileSize <= ChunkSize
    ensures TotalChunks(20 * 1024 * 1024, ChunkSize) == 3
    ensures PacketSize(20 * 1024 * 1024, ChunkSize, 2) == 4 * 1024 * 1024
  {
    assert Offset(ChunkSize, 1) == ChunkSize;
    assert Offset(ChunkSize, 2) == 2 * ChunkSize;
    assert Offset(ChunkSize, 3) == 3 * ChunkSize;
  }

  /**
    When the chunk size divides a non-empty file, the chunks fill it exactly:
    there are `fileSize / chunkSize` of them.
   */
  lemma Divisible(fileSize: nat, chunkSize: nat)
    requires chunkSize > 0
    requires 0 < fileSize && fileSize % chunkSize == 0
    ensures TotalChunks(fileSize, chunkSize) == fileSize / chunkSize
    ensures Offset(chunkSize, TotalChunks(fileSize, chunkSize)) == fileSize
  {
    var n := TotalChunks(fileSize, chunkSize);
    DivMod(fileSize, chunkSize);
    OffsetIsProduct(chunkSize, n);
    OffsetIsProduct(chunkSize, fileSize / chunkSize);
  }

  /** The bytes chunk `i` carries: what is left of the file, at most one chunk. */
  function PacketSize(fileSize: nat, chunkSize: nat, i: nat): int
  {
    Min(fileSize - Offset(chunkSize, i), chunkSize)
  }

  /**
    Every planned packet fits in one chunk, is never negative, is non-empty
    unless the file is, and is a full chunk whenever the chunk size divides a
    non-empty file.
   */
  lemma PacketSizeBounds(fileSize: nat, chunkSize: nat, i: nat)
    requires chunkSize > 0
    requires i < TotalChunks(fileSize, chunkSize)
    ensures 0 <= PacketSize(fileSize, chunkSize, i) <= chunkSize
    ensures 0 < fileSize ==> 0 < PacketSize(fileSize, chunkSize, i)
    ensures 0 < fileSize && fileSize % chunkSize == 0 ==> PacketSize(fileSize, chunkSize, i) == chunkSize
  {
    var n := TotalChunks(fileSize, chunkSize);
    if i < n - 1 {
      OffsetMono(chunkSize, i, n - 1);
    }
    if 0 < fileSize && fileSize % chunkSize == 0 {
      Divisible(fileSize, chunkSize);
      OffsetMono(chunkSize, i, n);
    }
  }

  /**
    Chunk `i` starts inside the file (or at its end, for the empty file) and
    ends where chunk `i + 1` would start, cut at the end of the file.
   */
  lemma ChunkEnds(fileSize: nat, chunkSize: nat, i: nat)
    requires chunkSize > 0
    requires i < TotalChunks(fileSize, chunkSize)
    ensures Offset(chunkSize, i) <= fileSize
    ensures Offset(chunkSize, i) + PacketSize(fileSize, chunkSize, i) == Min(Offset(chunkSize, i + 1), fileSize)
  {
    var n := TotalChunks(fileSize, chunkSize);
    if i + 1 < n {
      OffsetMono(chunkSize, i + 1, n);
    } else if i + 1 == n && 0 < i {
      OffsetMono(chunkSize, i - 1, i);
    }
  }

  /**
    The chunks are contiguous: each one ends where the next begins, and the
    last one ends at the end of the file.
   */
  lemma Contiguous(fileSize: nat, chunkSize: nat, i: nat)
    requires chunkSize > 0
    requires i < TotalChunks(fileSize, chunkSize)
    ensures i + 1 < TotalChunks(fileSize, chunkSize) ==>
      Offset(chunkSize, i) + PacketSize(fileSize, chunkSize, i) == Offset(chunkSize, i + 1)
    ensures i + 1 == TotalChunks(fileSize, chunkSize) ==>
      Offset(chunkSize, i) + PacketSize(fileSize, chunkSize, i) == fileSize
  {
    var n := TotalChunks(fileSize, chunkSize);
    ChunkEnds(fileSize, chunkSize, i);
    if i + 1 < n {
      OffsetMono(chunkSize, i + 1, n);
    }
  }

  /** Chunk `i` covers byte position `p`. */
  predicate Covers(fileSize: nat, chunkSize: nat, i: nat, p: nat)
  {
    Offset(chunkSize, i) <= p < Offset(chunkSize, i) + PacketSize(fileSize, chunkSize, i)
  }

  /**
    The chunks partition [0, fileSize): every byte of the file lies in exactly
    one planned chunk, the one numbered `p / chunkSize`.
   */
  lemma Partition(fileSize: nat, chunkSize: nat, p: nat)
    requires chunkSize > 0
    requires p < fileSize
    ensures p / chunkSize < TotalChunks(fileSize, chunkSize)
    ensures Covers(fileSize, chunkSize, p / chunkSize, p)
    ensures forall j: nat :: j < TotalChunks(fileSize, chunkSize) && Covers(fileSize, chunkSize, j, p) ==> j == p / chunkSize
  {
    var n := TotalChunks(fileSize, chunkSize);
    var k := p / chunkSize;
    DivMod(p, chunkSize);
    OffsetIsProduct(chunkSize, k);
    assert Offset(chunkSize, k) <= p < Offset(chunkSize, k + 1);
    if k >= n {
      if n < k {
        OffsetMono(chunkSize, n, k);
      }
      assert false;
    }
    forall j: nat | j < n && Covers(fileSize, chunkSize, j, p)
      ensures j == k
    {
      if j < k {
        OffsetMono(chunkSize, j, k);
      } else if j > k {
        OffsetMono(chunkSize, k, j);
      }
    }
  }

  /** Sum of the first `k` packet sizes. */
  function SumPackets(fileSize: nat, chunkSize: nat, k: nat): int
  {
    if k == 0 then 0 else SumPackets(fileSize, chunkSize, k - 1) + PacketSize(fileSize, chunkSize, k - 1)
  }

  /**
    The first `k` packets together carry the bytes up to where chunk `k`
    starts, cut at the end of the file; all of them carry the whole file.
   */
  lemma {:induction false} SumPacketsPrefix(fileSize: nat, chunkSize: nat, k: nat)
    requires chunkSize > 0
    requires k <= TotalChunks(fileSize, chunkSize)
    ensures SumPackets(fileSize, chunkSize, k) == Min(Offset(chunkSize, k), fileSize)
  {
    if k > 0 {
      SumPacketsPrefix(fileSize, chunkSize, k - 1);
      ChunkEnds(fileSize, chunkSize, k - 1);
    }
  }

  lemma SumPacketsIsFileSize(fileSize: nat, chunkSize: nat)
    requires chunkSize > 0
    ensures SumPackets(fileSize, chunkSize, TotalChunks(fileSize, chunkSize)) == fileSize
  {
    SumPacketsPrefix(fileSize, chunkSize, TotalChunks(fileSize, chunkSize));
  }

  /** The bytes of `source` that chunk `i` carries. */
  function Chunk(source: seq<byte>, chunkSize: nat, i: nat): (c: seq<byte>)
    requires chunkSize > 0
    requires i < TotalChunks(|source|, chunkSize)
    ensures |c| == PacketSize(|source|, chunkSize, i)
    ensures Offset(chunkSize, i) + |c| <= |source|
  {
    PacketSizeBounds(|source|, chunkSize, i);
    ChunkEnds(|source|, chunkSize, i);
    source[Offset(chunkSize, i)..Offset(chunkSize, i) + PacketSize(|source|, chunkSize, i)]
  }

  lemma SliceJoin<T>(s: seq<T>, lo: nat, hi: nat)
    requires lo <= hi <= |s|
    ensures s[..lo] + s[lo..hi] == s[..hi]
  {
  }

  /** The first `k` chunks of `source`, concatenated in index order. */
  function Reassemble(source: seq<byte>, chunkSize: nat, k: nat): seq<byte>
    requires chunkSize > 0
    requires k <= TotalChunks(|source|, chunkSize)
  {
    if k == 0 then [] else Reassemble(source, chunkSize, k - 1) + Chunk(source, chunkSize, k - 1)
  }

  /**
    Reassembly round-trip: putting the planned chunks back together in index
    order gives the source back, byte for byte.
   */
  lemma {:induction false} ReassemblePrefix(source: seq<byte>, chunkSize: nat, k: nat)
    requires chunkSize > 0
    requires k <= TotalChunks(|source|, chunkSize)
    ensures Reassemble(source, chunkSize, k) == source[..Min(Offset(chunkSize, k), |source|)]
  {
    if k > 0 {
      ReassemblePrefix(source, chunkSize, k - 1);
      ChunkEnds(|source|, chunkSize, k - 1);
      var lo := Offset(chunkSize, k - 1);
      var c := Chunk(source, chunkSize, k - 1);
      var hi := lo + |c|;
      assert Reassemble(source, chunkSize, k) == source[..lo] + c;
      assert c == source[lo..hi];
      assert Min(Offset(chunkSize, k), |source|) == hi;
      SliceJoin(source, lo, hi);
    }
  }

  lemma ReassembleAll(source: seq<byte>, chunkSize: nat)
    requires chunkSize > 0
    ensures Reassemble(source, chunkSize, TotalChunks(|source|, chunkSize)) == source
  {
    var n := TotalChunks(|source|, chunkSize);
    ReassemblePrefix(source, chunkSize, n);
  }
}
