/** How a BLE write is cut into UART blocks, and the LF appended after a CR. */
module Chunking {
  import opened Bytes

  /** A write as it should appear on the UART. */
  function WithLf(data: seq<byte>): seq<byte> {
    data + (if data != [] && data[|data| - 1] == CR then [LF] else [])
  }

  /** Input bytes taken by the block that starts at `pos`; one byte of the block stays free for the LF. */
  function Take(len: nat, pos: nat, size: nat): nat
    requires pos <= len && 2 <= size
  {
    if len - pos > size - 1 then size - 1 else len - pos
  }

  /** The block made at `pos`. */
  function Chunk(data: seq<byte>, pos: nat, size: nat): seq<byte>
    requires pos < |data| && 2 <= size
  {
    var n := Take(|data|, pos, size);
    data[pos..pos + n] + (if pos + n == |data| && data[|data| - 1] == CR then [LF] else [])
  }

  /** A block's payload, as it is filled: a piece of the write, then perhaps an LF. */
  lemma ChunkOf(data: seq<byte>, pos: nat, size: nat)
    requires pos < |data| && 2 <= size
    ensures var n := Take(|data|, pos, size);
      var piece := data[pos..pos + n];
      && 0 < n && |piece| == n
      && Chunk(data, pos, size) == (if pos + n == |data| && data[|data| - 1] == CR then piece + [LF] else piece)
      && |Chunk(data, pos, size)| <= size
  {
  }

  /** All blocks from `pos` on. */
  function Chunks(data: seq<byte>, pos: nat, size: nat): seq<seq<byte>>
    requires pos <= |data| && 2 <= size
    decreases |data| - pos
  {
    if pos == |data| then []
    else [Chunk(data, pos, size)] + Chunks(data, pos + Take(|data|, pos, size), size)
  }

  /** What the UART has been handed once `taken` bytes of a write are cut. */
  function Cut(data: seq<byte>, taken: nat): seq<byte>
    requires taken <= |data|
  {
    if taken == |data| then WithLf(data) else data[..taken]
  }

  lemma CutGrows(data: seq<byte>, pos: nat, size: nat)
    requires pos < |data| && 2 <= size
    ensures Cut(data, pos + Take(|data|, pos, size)) == Cut(data, pos) + Chunk(data, pos, size)
  {
    var n := Take(|data|, pos, size);
    assert data[..pos + n] == data[..pos] + data[pos..pos + n];
    assert pos + n == |data| ==> data[..pos + n] == data;
  }

  /** Every block is non-empty and fits the buffer, LF included; all but the last are full up to the LF byte. */
  lemma {:induction false} ChunksFit(data: seq<byte>, pos: nat, size: nat)
    requires pos <= |data| && 2 <= size
    ensures forall i :: 0 <= i < |Chunks(data, pos, size)| ==> 1 <= |Chunks(data, pos, size)[i]| <= size
    ensures forall i :: 0 <= i < |Chunks(data, pos, size)| - 1 ==> |Chunks(data, pos, size)[i]| == size - 1
    decreases |data| - pos
  {
    if pos < |data| {
      ChunksFit(data, pos + Take(|data|, pos, size), size);
    }
  }

  /** The position reached after `k` blocks. */
  function After(len: nat, pos: nat, k: nat, size: nat): (p: nat)
    requires pos <= len && 2 <= size
    ensures pos <= p <= len
    decreases k
  {
    if k == 0 || pos == len then pos else After(len, pos + Take(len, pos, size), k - 1, size)
  }

  /** The blocks made before an allocation fails are a prefix of the write,
    without the LF; all the blocks together are the write with its LF. */
  lemma {:induction false} ChunksPrefix(data: seq<byte>, pos: nat, k: nat, size: nat)
    requires pos < |data| && 2 <= size && k <= |Chunks(data, pos, size)|
    ensures k < |Chunks(data, pos, size)| ==>
      Flat(Chunks(data, pos, size)[..k]) == data[pos..After(|data|, pos, k, size)]
    ensures k == |Chunks(data, pos, size)| ==>
      Flat(Chunks(data, pos, size)[..k]) == WithLf(data)[pos..]
    decreases k
  {
    hide Flat, WithLf, Chunk;
    ChunkOf(data, pos, size);
    if k == 0 {
      FirstPiece([], []);
    } else {
      var cs := Chunks(data, pos, size);
      var p := pos + Take(|data|, pos, size);
      var rest := Chunks(data, p, size);
      assert cs[..k] == [cs[0]] + rest[..k - 1];
      FirstPiece(cs[0], rest[..k - 1]);
      if p < |data| {
        ChunksPrefix(data, p, k - 1, size);
        LinePieces(data, pos, p, After(|data|, p, k - 1, size));
      } else {
        LastPiece(data, pos, size);
      }
    }
  }

  lemma FirstPiece(c: seq<byte>, rest: seq<seq<byte>>)
    ensures Flat([c] + rest) == c + Flat(rest) && Flat([]) == []
  {
    FlatConcat([c], rest);
    FlatOne(c);
  }

  lemma LinePieces(data: seq<byte>, pos: nat, p: nat, q: nat)
    requires pos <= p <= q <= |data|
    ensures data[pos..p] + data[p..q] == data[pos..q]
    ensures data[pos..p] + WithLf(data)[p..] == WithLf(data)[pos..]
  {
  }

  lemma LastPiece(data: seq<byte>, pos: nat, size: nat)
    requires pos < |data| && 2 <= size && pos + Take(|data|, pos, size) == |data|
    ensures Chunk(data, pos, size) == WithLf(data)[pos..]
  {
  }

  /** The blocks are as few as the buffer allows: their number is
    ceil((len - pos) / (size - 1)), and `k` unfinished blocks hold k * (size - 1) bytes. */
  lemma {:induction false} ChunksCount(data: seq<byte>, pos: nat, k: nat, size: nat)
    requires pos < |data| && 2 <= size && k < |Chunks(data, pos, size)|
    ensures After(|data|, pos, k, size) == pos + k * (size - 1)
    ensures (|Chunks(data, pos, size)| - 1) * (size - 1) < |data| - pos
    ensures |data| - pos <= |Chunks(data, pos, size)| * (size - 1)
    decreases |data| - pos
  {
    var p := pos + Take(|data|, pos, size);
    if p < |data| {
      var c := |Chunks(data, p, size)|;
      ChunksCount(data, p, if k == 0 then 0 else k - 1, size);
      Times(c - 1, size - 1);
      Times(c, size - 1);
      if k > 0 {
        Times(k - 1, size - 1);
      }
    }
  }

  lemma Times(k: int, d: nat)
    ensures (k + 1) * d == k * d + d
  {
  }

  /** Block lengths fit the 16-bit length field for every write a 16-bit count
    can describe exactly when the buffer is at most 65535 bytes. */
  lemma LengthFieldSuffices(size: nat)
    requires 2 <= size
    ensures (forall data: seq<byte>, pos: nat :: |data| <= 0xffff && pos < |data| ==>
              U16(|Chunk(data, pos, size)|) == |Chunk(data, pos, size)|)
        <==> size <= 0xffff
  {
    if size > 0xffff {
      var data: seq<byte> := seq(0xffff, _ => CR);
      assert |Chunk(data, 0, size)| == 0x1_0000;
    }
  }
}
