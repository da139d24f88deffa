/** The chunked tape of both programs: a doubly linked list of fixed-size
    byte chunks, a current chunk (`page`) and an offset in it (`data`).

    The list only ever grows at its two ends, so it is a sequence of chunks,
    leftmost first. The chunk allocated at start-up sits at index `origin`;
    chunk numbers count from it (negative to its left), and the absolute tape
    position of a cell is its chunk number times the chunk length plus its
    offset. `Cell` reads the tape through that flat view. */
module Chunked {
  import opened Base
  import opened Setup

  datatype Tape = Tape(chunks: seq<seq<Byte>>, origin: nat, cur: nat, off: nat)

  /** The data pointer lies inside the current chunk, the start-up chunk and
      the current chunk exist, and every chunk is `chunkLen` bytes long. */
  predicate Wf(cfg: Config, t: Tape)
  {
    && Valid(cfg)
    && 0 < |t.chunks|
    && t.origin < |t.chunks|
    && t.cur < |t.chunks|
    && t.off < cfg.chunkLen
    && forall i :: 0 <= i < |t.chunks| ==> |t.chunks[i]| == cfg.chunkLen
  }

  /** Number of the current chunk, counted from the start-up chunk. */
  function ChunkNo(t: Tape): int
  {
    t.cur - t.origin
  }

  /** Absolute position of the data pointer. */
  function AbsPos(cfg: Config, t: Tape): int
  {
    ChunkNo(t) * cfg.chunkLen + t.off
  }

  /** A non-negative multiple of a positive number is non-negative. */
  lemma {:induction false} MulNonneg(a: nat, len: nat)
    ensures a * len >= 0
  {
    if a > 0 {
      MulNonneg(a - 1, len);
      assert a * len == (a - 1) * len + len;
    }
  }

  /** A positive multiple of a positive number is at least that number. */
  lemma AtLeastOnce(a: int, len: nat)
    requires a >= 1
    ensures a * len >= len
  {
    MulNonneg(a - 1, len);
  }

  /** The only multiple of `len` strictly between `-len` and `len` is zero. */
  lemma SmallMultiple(x: int, len: nat)
    requires len > 0 && -(len as int) < x * len < len
    ensures x == 0
  {
    if x >= 1 {
      AtLeastOnce(x, len);
    } else if x <= -1 {
      AtLeastOnce(-x, len);
    }
  }

  /** Euclidean division recovers chunk number and offset from a position. */
  lemma DivModOfPos(q: int, len: int, o: int)
    requires len > 0 && 0 <= o < len
    ensures (q * len + o) / len == q
    ensures (q * len + o) % len == o
  {
    var n := q * len + o;
    var d, m := n / len, n % len;
    assert n == d * len + m;
    assert (d - q) * len == d * len - q * len;
    SmallMultiple(d - q, len);
  }

  /** The value at absolute position `p`: the stored byte when its chunk
      exists, otherwise what the allocator will put there. */
  function Cell(cfg: Config, t: Tape, p: int): Byte
    requires Wf(cfg, t)
  {
    var i := p / cfg.chunkLen + t.origin;
    if 0 <= i < |t.chunks| then t.chunks[i][p % cfg.chunkLen] else Initial(cfg.fill, p)
  }

  /** The chunk the allocator hands back for chunk number `k`. */
  function Fresh(cfg: Config, k: int): (c: seq<Byte>)
    requires Valid(cfg)
    ensures |c| == cfg.chunkLen
    ensures forall j :: 0 <= j < cfg.chunkLen ==> c[j] == Initial(cfg.fill, k * cfg.chunkLen + j)
  {
    seq<Byte>(cfg.chunkLen, j requires 0 <= j < cfg.chunkLen => Initial(cfg.fill, k * cfg.chunkLen + j))
  }

  /** Start-up (`init_bfin`, and `main` in bfvm): one chunk, the data pointer
      in its middle, every cell holding what the allocator left there. */
  function Init(cfg: Config): (t: Tape)
    requires Valid(cfg)
    ensures Wf(cfg, t)
    ensures |t.chunks| == 1
    ensures AbsPos(cfg, t) == cfg.chunkLen / 2
    ensures t.off == cfg.chunkLen / 2
    ensures forall p :: Cell(cfg, t, p) == Initial(cfg.fill, p)
  {
    var t := Tape([Fresh(cfg, 0)], 0, 0, cfg.chunkLen / 2);
    assert forall p :: Cell(cfg, t, p) == Initial(cfg.fill, p) by {
      forall p
        ensures Cell(cfg, t, p) == Initial(cfg.fill, p)
      {
        DivModOfPos(p / cfg.chunkLen, cfg.chunkLen, p % cfg.chunkLen);
      }
    }
    t
  }

  /** The byte under the data pointer (`*data`). */
  function Read(cfg: Config, t: Tape): (b: Byte)
    requires Wf(cfg, t)
    ensures b == Cell(cfg, t, AbsPos(cfg, t))
  {
    DivModOfPos(ChunkNo(t), cfg.chunkLen, t.off);
    t.chunks[t.cur][t.off]
  }

  /** Stores `b` under the data pointer (`*data = b`). */
  function Write(cfg: Config, t: Tape, b: Byte): (r: Tape)
    requires Wf(cfg, t)
    ensures Wf(cfg, r)
    ensures AbsPos(cfg, r) == AbsPos(cfg, t)
    ensures |r.chunks| == |t.chunks|
    ensures Cell(cfg, r, AbsPos(cfg, t)) == b
    ensures forall p :: p != AbsPos(cfg, t) ==> Cell(cfg, r, p) == Cell(cfg, t, p)
  {
    var chunk: seq<Byte> := t.chunks[t.cur][t.off := b];
    var r := t.(chunks := t.chunks[t.cur := chunk]);
    DivModOfPos(ChunkNo(t), cfg.chunkLen, t.off);
    assert forall p :: p != AbsPos(cfg, t) ==> Cell(cfg, r, p) == Cell(cfg, t, p) by {
      forall p | p != AbsPos(cfg, t)
        ensures Cell(cfg, r, p) == Cell(cfg, t, p)
      {
        DivModOfPos(p / cfg.chunkLen, cfg.chunkLen, p % cfg.chunkLen);
      }
    }
    r
  }

  /** `overflow_right`: link a newly allocated chunk after the current one,
      which has to be the last (the C code asserts it has no successor).
      Nothing already on the tape changes. */
  function GrowRight(cfg: Config, t: Tape): (r: Tape)
    requires Wf(cfg, t) && t.cur == |t.chunks| - 1
    ensures Wf(cfg, r)
    ensures |r.chunks| == |t.chunks| + 1 && r.chunks[..|t.chunks|] == t.chunks
    ensures r.origin == t.origin && r.cur == t.cur && r.off == t.off
    ensures forall p :: Cell(cfg, r, p) == Cell(cfg, t, p)
  {
    var len := cfg.chunkLen;
    var r := t.(chunks := t.chunks + [Fresh(cfg, |t.chunks| - t.origin)]);
    assert forall p :: Cell(cfg, r, p) == Cell(cfg, t, p) by {
      forall p
        ensures Cell(cfg, r, p) == Cell(cfg, t, p)
      {
        var i := p / len + t.origin;
        if 0 <= i < |t.chunks| {
          assert r.chunks[i] == t.chunks[i];
        } else if i == |t.chunks| {
          assert p == (p / len) * len + p % len;
        }
      }
    }
    r
  }

  /** `overflow_left`: link a newly allocated chunk before the current one,
      which has to be the first (the C code asserts it has no predecessor).
      Every index shifts by one, the start-up chunk's included, and nothing
      already on the tape changes. */
  function GrowLeft(cfg: Config, t: Tape): (r: Tape)
    requires Wf(cfg, t) && t.cur == 0
    ensures Wf(cfg, r)
    ensures |r.chunks| == |t.chunks| + 1 && r.chunks[1..] == t.chunks
    ensures r.origin == t.origin + 1 && r.cur == t.cur + 1 && r.off == t.off
    ensures forall p :: Cell(cfg, r, p) == Cell(cfg, t, p)
  {
    var len := cfg.chunkLen;
    var r := Tape([Fresh(cfg, -(t.origin as int) - 1)] + t.chunks, t.origin + 1, t.cur + 1, t.off);
    assert forall p :: Cell(cfg, r, p) == Cell(cfg, t, p) by {
      forall p
        ensures Cell(cfg, r, p) == Cell(cfg, t, p)
      {
        var i := p / len + t.origin;
        if 0 <= i < |t.chunks| {
          assert r.chunks[i + 1] == t.chunks[i];
        } else if i == -1 {
          assert p == (p / len) * len + p % len;
        }
      }
    }
    r
  }

  /** `>`: step right, moving to the next chunk past the last byte and
      allocating that chunk only when the current one has no right
      neighbour. */
  function MoveRight(cfg: Config, t: Tape): (r: Tape)
    requires Wf(cfg, t)
    ensures Wf(cfg, r)
    ensures AbsPos(cfg, r) == AbsPos(cfg, t) + 1
    ensures forall p :: Cell(cfg, r, p) == Cell(cfg, t, p)
    ensures r.origin == t.origin
    ensures t.chunks <= r.chunks
    ensures |r.chunks| <= |t.chunks| + 1
    ensures |r.chunks| > |t.chunks| <==> t.off == cfg.chunkLen - 1 && t.cur == |t.chunks| - 1
  {
    var len := cfg.chunkLen;
    if t.off + 1 < len then
      t.(off := t.off + 1)
    else
      var u := if t.cur + 1 < |t.chunks| then t else GrowRight(cfg, t);
      assert (ChunkNo(t) + 1) * len == ChunkNo(t) * len + len;
      u.(cur := t.cur + 1, off := 0)
  }

  /** `<`: step left, moving to the previous chunk before the first byte and
      allocating that chunk only when the current one has no left
      neighbour. */
  function MoveLeft(cfg: Config, t: Tape): (r: Tape)
    requires Wf(cfg, t)
    ensures Wf(cfg, r)
    ensures AbsPos(cfg, r) == AbsPos(cfg, t) - 1
    ensures forall p :: Cell(cfg, r, p) == Cell(cfg, t, p)
    ensures |t.chunks| <= |r.chunks| <= |t.chunks| + 1
    ensures t.chunks == r.chunks[|r.chunks| - |t.chunks|..]
    ensures |r.chunks| > |t.chunks| <==> t.off == 0 && t.cur == 0
  {
    var len := cfg.chunkLen;
    if t.off > 0 then
      t.(off := t.off - 1)
    else
      var u := if t.cur > 0 then t else GrowLeft(cfg, t);
      assert (ChunkNo(t) - 1) * len == ChunkNo(t) * len - len;
      u.(cur := u.cur - 1, off := len - 1)
  }

  /** `+`: the current cell goes up by one modulo 256. */
  function Increment(cfg: Config, t: Tape): (r: Tape)
    requires Wf(cfg, t)
    ensures Wf(cfg, r)
    ensures AbsPos(cfg, r) == AbsPos(cfg, t)
    ensures Cell(cfg, r, AbsPos(cfg, t)) == (Cell(cfg, t, AbsPos(cfg, t)) + 1) % 256
    ensures forall p :: p != AbsPos(cfg, t) ==> Cell(cfg, r, p) == Cell(cfg, t, p)
  {
    Write(cfg, t, Wrap(Read(cfg, t), 1))
  }

  /** `-`: the current cell goes down by one modulo 256. */
  function Decrement(cfg: Config, t: Tape): (r: Tape)
    requires Wf(cfg, t)
    ensures Wf(cfg, r)
    ensures AbsPos(cfg, r) == AbsPos(cfg, t)
    ensures Cell(cfg, r, AbsPos(cfg, t)) == (Cell(cfg, t, AbsPos(cfg, t)) + 255) % 256
    ensures forall p :: p != AbsPos(cfg, t) ==> Cell(cfg, r, p) == Cell(cfg, t, p)
  {
    Write(cfg, t, Wrap(Read(cfg, t), -1))
  }

  /** Stepping right then left (or left then right) returns to the same cell
      and changes no cell, though it may leave a new chunk linked in. */
  lemma MoveRightThenLeft(cfg: Config, t: Tape)
    requires Wf(cfg, t)
    ensures var r := MoveLeft(cfg, MoveRight(cfg, t));
      && AbsPos(cfg, r) == AbsPos(cfg, t)
      && (forall p :: Cell(cfg, r, p) == Cell(cfg, t, p))
      && Read(cfg, r) == Read(cfg, t)
  {
  }

  lemma MoveLeftThenRight(cfg: Config, t: Tape)
    requires Wf(cfg, t)
    ensures var r := MoveRight(cfg, MoveLeft(cfg, t));
      && AbsPos(cfg, r) == AbsPos(cfg, t)
      && (forall p :: Cell(cfg, r, p) == Cell(cfg, t, p))
      && Read(cfg, r) == Read(cfg, t)
  {
  }

  /** The first crossing of the right edge of the tape allocates a chunk,
      and the cell reached holds what the allocator left there: zero under
      `calloc`. */
  lemma FirstCrossingRight(cfg: Config, t: Tape)
    requires Wf(cfg, t)
    requires t.off == cfg.chunkLen - 1 && t.cur == |t.chunks| - 1
    ensures Read(cfg, MoveRight(cfg, t)) == Initial(cfg.fill, AbsPos(cfg, t) + 1)
    ensures cfg.fill.Zeroed? ==> Read(cfg, MoveRight(cfg, t)) == 0
  {
    var len := cfg.chunkLen;
    assert AbsPos(cfg, t) + 1 == (ChunkNo(t) + 1) * len + 0;
    DivModOfPos(ChunkNo(t) + 1, len, 0);
  }

  /** The same for the left edge. */
  lemma FirstCrossingLeft(cfg: Config, t: Tape)
    requires Wf(cfg, t)
    requires t.off == 0 && t.cur == 0
    ensures Read(cfg, MoveLeft(cfg, t)) == Initial(cfg.fill, AbsPos(cfg, t) - 1)
    ensures cfg.fill.Zeroed? ==> Read(cfg, MoveLeft(cfg, t)) == 0
  {
    var len := cfg.chunkLen;
    assert AbsPos(cfg, t) - 1 == (ChunkNo(t) - 1) * len + (len - 1);
    DivModOfPos(ChunkNo(t) - 1, len, len - 1);
  }

  /** Later crossings find the value last written: a byte stored, then left
      behind in either direction, is read back on return. */
  lemma ReturnReadsLastWritten(cfg: Config, t: Tape, b: Byte)
    requires Wf(cfg, t)
    ensures Read(cfg, MoveLeft(cfg, MoveRight(cfg, Write(cfg, t, b)))) == b
    ensures Read(cfg, MoveRight(cfg, MoveLeft(cfg, Write(cfg, t, b)))) == b
  {
    MoveRightThenLeft(cfg, Write(cfg, t, b));
    MoveLeftThenRight(cfg, Write(cfg, t, b));
  }
}
