/**
  How the bootloader walks the signed region of the external serial flash:
  consecutive chunks of at most one buffer (256 bytes), each read by a
  continuous-read transfer of a whole buffer.
*/
module ChunkStream {

  /** Size of each of the two chunk buffers; equal to the internal flash row
      (NVMCTRL_ROW_SIZE), which the bootloader asserts at compile time. */
  const CHUNK_SIZE: nat := 256

  /** Number of bytes of the chunk starting at `addr` that belong to the region
      ending at `end`: a whole buffer, or what is left of the region. */
  function ChunkLength(addr: nat, end: nat): (n: nat)
    requires addr < end
    ensures 0 < n <= CHUNK_SIZE && addr + n <= end
    ensures n == CHUNK_SIZE || addr + n == end
    ensures n < CHUNK_SIZE ==> addr + n == end
  {
    if end - addr > CHUNK_SIZE then CHUNK_SIZE else end - addr
  }

  datatype Chunk = Chunk(start: nat, len: nat)

  /** The chunks a scan of [start, end) processes, in order. */
  function Tiles(start: nat, end: nat): seq<Chunk>
    decreases end - start
  {
    if start >= end then []
    else
      var n := ChunkLength(start, end);
      [Chunk(start, n)] + Tiles(start + n, end)
  }

  /** The tiling of [start, end): chunk i starts CHUNK_SIZE * i bytes in and
      has ChunkLength bytes, and the last one ends exactly at `end`. */
  lemma {:induction false} TilesCover(start: nat, end: nat)
    requires start <= end
    ensures var ts := Tiles(start, end);
      && (start == end <==> |ts| == 0)
      && (forall i :: 0 <= i < |ts| ==>
            ts[i].start == start + CHUNK_SIZE * i && ts[i].start < end && ts[i].len == ChunkLength(ts[i].start, end))
      && (|ts| > 0 ==> ts[|ts| - 1].start + ts[|ts| - 1].len == end)
    decreases end - start
  {
    if start < end {
      var n := ChunkLength(start, end);
      TilesCover(start + n, end);
      var ts, rest := Tiles(start, end), Tiles(start + n, end);
      assert ts == [Chunk(start, n)] + rest;
      assert |rest| > 0 ==> n == CHUNK_SIZE;
      forall i | 0 < i < |ts|
        ensures ts[i] == rest[i - 1] && ts[i].start == start + CHUNK_SIZE * i
      {
        assert ts[i] == rest[i - 1];
        assert rest[i - 1].start == start + n + CHUNK_SIZE * (i - 1);
      }
    }
  }

  /** Consecutive chunks are adjacent and only the last one may be short. */
  lemma TilesAdjacent(start: nat, end: nat)
    requires start <= end
    ensures var ts := Tiles(start, end);
      forall i :: 0 <= i < |ts| - 1 ==> ts[i].start + ts[i].len == ts[i + 1].start && ts[i].len == CHUNK_SIZE
  {
    TilesCover(start, end);
    var ts := Tiles(start, end);
    forall i | 0 <= i < |ts| - 1
      ensures ts[i].start + ts[i].len == ts[i + 1].start && ts[i].len == CHUNK_SIZE
    {
      assert ts[i + 1].start == ts[i].start + CHUNK_SIZE < end;
    }
  }

  /** The scan at `addr` is at chunk `k` of the tiling of [start, end): the
      k-th chunk starts there, or `k` counts every chunk once the scan is over. */
  ghost predicate AtTile(start: nat, end: nat, k: nat, addr: nat)
    requires start <= end
  {
    if addr < end then k < |Tiles(start, end)| && Tiles(start, end)[k].start == addr
    else addr == end && k == |Tiles(start, end)|
  }

  /** A scan of a non-empty region starts at its first chunk. */
  lemma TileFirst(start: nat, end: nat)
    requires start < end
    ensures AtTile(start, end, 0, start)
  {
    TilesCover(start, end);
  }

  /** Advancing the scan by the length of its current chunk moves it to the
      next chunk of the tiling, or past the last one. */
  lemma TileStep(start: nat, end: nat, k: nat, addr: nat)
    requires start <= end && addr < end && AtTile(start, end, k, addr)
    ensures AtTile(start, end, k + 1, addr + ChunkLength(addr, end))
  {
    TilesCover(start, end);
    TilesAdjacent(start, end);
    var ts := Tiles(start, end);
    if k + 1 < |ts| {
      assert ts[k + 1].start == addr + ChunkLength(addr, end) < end;
    } else {
      assert ts[k].start + ts[k].len == end;
    }
  }

  /** The bytes a continuous read of `len` bytes starting at `from` delivers:
      the serial flash wraps to its first byte after its last one. */
  function Stream(ext: seq<bv8>, from: nat, len: nat): (s: seq<bv8>)
    requires |ext| > 0
    ensures |s| == len
  {
    seq(len, i requires 0 <= i < len => ext[(from + i) % |ext|])
  }

  /** A read that stays inside the chip is a plain slice of it. */
  lemma StreamInBounds(ext: seq<bv8>, from: nat, len: nat)
    requires 0 < |ext| && from + len <= |ext|
    ensures Stream(ext, from, len) == ext[from..from + len]
  {
    forall i | 0 <= i < len
      ensures Stream(ext, from, len)[i] == ext[from..from + len][i]
    {
      ModOfSmall(from + i, |ext|);
    }
  }

  lemma ModOfSmall(x: nat, m: nat)
    requires x < m
    ensures x % m == x
  {
  }

  /** Reading `m` bytes and then `n` more continues the same stream. */
  lemma StreamSplit(ext: seq<bv8>, from: nat, m: nat, n: nat)
    requires |ext| > 0
    ensures Stream(ext, from, m) + Stream(ext, from + m, n) == Stream(ext, from, m + n)
  {
    var s := Stream(ext, from, m) + Stream(ext, from + m, n);
    forall i | 0 <= i < m + n
      ensures s[i] == ext[(from + i) % |ext|]
    {
      if i >= m {
        assert s[i] == Stream(ext, from + m, n)[i - m];
      }
    }
  }

  /** The first `m` bytes of a read are a read of `m` bytes. */
  lemma StreamTake(ext: seq<bv8>, from: nat, len: nat, m: nat)
    requires |ext| > 0 && m <= len
    ensures Stream(ext, from, len)[..m] == Stream(ext, from, m)
  {
  }

  /** The first `n` bytes of a whole-buffer read that stays inside the chip
      are the plain slice of it. */
  lemma ChunkBytes(ext: seq<bv8>, from: nat, n: nat, buf: seq<bv8>)
    requires |ext| > 0 && n <= CHUNK_SIZE && from + n <= |ext|
    requires buf == Stream(ext, from, CHUNK_SIZE)
    ensures buf[..n] == ext[from..from + n]
  {
    StreamTake(ext, from, CHUNK_SIZE, n);
    StreamInBounds(ext, from, n);
  }

  /** Dropping the first `d` bytes of a read is reading from `from + d`. */
  lemma StreamDrop(ext: seq<bv8>, from: nat, len: nat, d: nat)
    requires |ext| > 0 && d <= len
    ensures Stream(ext, from, len)[d..] == Stream(ext, from + d, len - d)
  {
  }

  /** Appending the tail of a whole-buffer read that starts where the stream
      so far ends continues that stream. */
  lemma StreamExtend(ext: seq<bv8>, from: nat, len: nat, addr: nat, offset: nat)
    requires |ext| > 0 && offset <= CHUNK_SIZE && addr + offset == from + len
    ensures Stream(ext, from, len) + Stream(ext, addr, CHUNK_SIZE)[offset..] == Stream(ext, from, len + CHUNK_SIZE - offset)
  {
    StreamDrop(ext, addr, CHUNK_SIZE, offset);
    StreamSplit(ext, from, len, CHUNK_SIZE - offset);
  }

  /** Start of the chunk, in the scan of [from, end), whose end first exceeds
      `horizon`. The firmware window is entered in the chunk this gives for the
      window's first byte, and it closes in the one this gives for the larger of
      the window's first byte and its (32-bit) end. */
  function ClosingChunk(from: nat, horizon: nat, end: nat): (c: nat)
    requires from <= horizon < end
    ensures from <= c <= horizon < c + ChunkLength(c, end)
    ensures (c - from) % CHUNK_SIZE == 0
    decreases end - from
  {
    var n := ChunkLength(from, end);
    if from + n > horizon then from else ClosingChunk(from + n, horizon, end)
  }

  /** ClosingChunk is the first such chunk: every earlier chunk ends at or
      before `horizon`. */
  lemma {:induction false} ClosingChunkIsFirst(from: nat, horizon: nat, end: nat, a: nat)
    requires from <= horizon < end
    requires from <= a < ClosingChunk(from, horizon, end) && (a - from) % CHUNK_SIZE == 0
    ensures a + ChunkLength(a, end) <= horizon
    decreases end - from
  {
    var n := ChunkLength(from, end);
    if a > from {
      ClosingChunkIsFirst(from + n, horizon, end, a);
    }
  }

  /** No chunk of the scan that starts at or before `horizon` comes after
      ClosingChunk. */
  lemma ChunkUpToClosing(from: nat, horizon: nat, end: nat, a: nat)
    requires from <= a <= horizon < end && (a - from) % CHUNK_SIZE == 0
    ensures a <= ClosingChunk(from, horizon, end)
  {
    var c := ClosingChunk(from, horizon, end);
    if c < a {
      assert false;
    }
  }

  /** ClosingChunk is the only chunk of the scan whose bytes contain `horizon`. */
  lemma {:induction false} ClosingChunkUnique(from: nat, horizon: nat, end: nat, c: nat)
    requires from <= c <= horizon < end && (c - from) % CHUNK_SIZE == 0
    requires horizon < c + ChunkLength(c, end)
    ensures c == ClosingChunk(from, horizon, end)
    decreases end - from
  {
    var n := ChunkLength(from, end);
    if from + n <= horizon {
      assert c != from;
      ClosingChunkUnique(from + n, horizon, end, c);
    }
  }
}
