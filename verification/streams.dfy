/**
  Byte sequences and the three stream operations that both sides of the upload
  protocol rely on. The sender refills an in-memory buffer (`io.BytesIO`) and
  reads the source file; the receiver seeks and writes into a freshly opened
  file. Both kinds of stream follow the same rules for a write at a position,
  so the rules are stated once here.
 */
module Streams {

  /** A byte as the program handles it: an integer in [0, 256). */
  type byte = b: int | 0 <= b < 256

  /**
    File positions and sizes are signed 64-bit (`off_t`): no file is larger
    than this, and a seek to a position outside [MinFileOffset, MaxFileOffset]
    cannot even be passed to the operating system.
   */
  const MaxFileOffset: int := 0x7FFF_FFFF_FFFF_FFFF
  const MinFileOffset: int := -0x8000_0000_0000_0000

  function Min(a: int, b: int): int { if a <= b then a else b }

  function Max(a: int, b: int): int { if a <= b then b else a }

  /** `n` zero bytes: what a stream reads back in a gap nothing was written to. */
  function Zeros(n: nat): (z: seq<byte>)
    ensures |z| == n
    ensures forall i :: 0 <= i < n ==> z[i] == 0
  {
    seq(n, _ => 0)
  }

  ghost predicate AllZero(s: seq<byte>)
  {
    forall i :: 0 <= i < |s| ==> s[i] == 0
  }

  lemma AllZeroIsZeros(s: seq<byte>)
    ensures AllZero(s) <==> s == Zeros(|s|)
  {
  }

  /**
    A seek to `pos` followed by a write of `data`. Bytes before `pos` and after
    the written range keep their values, a gap between the old end and `pos`
    reads as zeros, and a write of nothing changes nothing (a seek on its own
    never extends a stream).
   */
  function WriteAt(s: seq<byte>, pos: nat, data: seq<byte>): (r: seq<byte>)
    ensures |data| == 0 ==> r == s
    ensures |data| > 0 ==> |r| == Max(|s|, pos + |data|)
    ensures |data| > 0 ==> r[pos..pos + |data|] == data
    ensures |data| > 0 ==> forall i :: 0 <= i < |r| && i < pos ==> r[i] == (if i < |s| then s[i] else 0)
    ensures forall i :: pos + |data| <= i < |r| ==> i < |s| && r[i] == s[i]
  {
    if |data| == 0 then s
    else if pos <= |s| then
      s[..pos] + data + (if pos + |data| < |s| then s[pos + |data|..] else [])
    else
      s + Zeros(pos - |s|) + data
  }

  /** `truncate(n)` on an in-memory buffer: cuts it to `n` bytes, never extends it. */
  function Truncate(s: seq<byte>, n: nat): (r: seq<byte>)
    ensures |r| == Min(n, |s|)
    ensures r <= s
  {
    if n < |s| then s[..n] else s
  }

  /** `read(n)` from position `pos` of a file: at most `n` bytes, fewer at the end. */
  function Read(s: seq<byte>, pos: nat, n: nat): (data: seq<byte>)
    ensures pos <= |s| ==> |data| == Min(n, |s| - pos)
    ensures pos <= |s| ==> data == s[pos..pos + |data|]
    ensures |s| <= pos ==> data == []
  {
    if |s| <= pos then [] else s[pos..Min(pos + n, |s|)]
  }

  /**
    A file opened in a truncating mode, then seeked to `offset` and written:
    all that is left is `offset` zero bytes followed by `data`, unless `data`
    is empty, in which case the file stays empty.
   */
  lemma TruncatingWrite(offset: nat, data: seq<byte>)
    ensures |data| > 0 ==> WriteAt([], offset, data) == Zeros(offset) + data
    ensures |data| == 0 ==> WriteAt([], offset, data) == []
    ensures AllZero(WriteAt([], offset, data)[..Min(offset, |WriteAt([], offset, data)|)])
  {
    if |data| > 0 {
      var r := WriteAt([], offset, data);
      assert r == [] + Zeros(offset) + data;
    }
  }

  /**
    The sender's buffer refill: truncate to `n`, rewind, write the `n` bytes
    read from position `pos`. Whatever the buffer held before, it now holds
    exactly those bytes of the file.
   */
  lemma RefillReads(buf: seq<byte>, file: seq<byte>, pos: nat, n: nat)
    requires pos + n <= |file|
    ensures Read(file, pos, n) == file[pos..pos + n]
    ensures WriteAt(Truncate(buf, n), 0, Read(file, pos, n)) == file[pos..pos + n]
  {
    var t := Truncate(buf, n);
    var data := Read(file, pos, n);
    if n > 0 {
      assert WriteAt(t, 0, data) == t[..0] + data + [];
    }
  }
}
