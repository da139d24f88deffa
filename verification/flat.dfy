/** The flat, bi-infinite byte tape brainfuck is defined on, and the proof
    that the chunked tape implements it: each chunked operation moves the
    absolute position and changes cells exactly as the flat one does. */
module Flat {
  import opened Base
  import opened Setup
  import opened Chunked

  /** A position and the cells written so far; every other cell still holds
      its initial value. */
  datatype FlatTape = FlatTape(pos: int, written: map<int, Byte>)

  function Get(fill: Fill, f: FlatTape, p: int): Byte
  {
    if p in f.written then f.written[p] else Initial(fill, p)
  }

  /** The cell under the head. */
  function Here(fill: Fill, f: FlatTape): Byte
  {
    Get(fill, f, f.pos)
  }

  /** The head where start-up places the data pointer. */
  function FlatStart(cfg: Config): FlatTape
  {
    FlatTape(cfg.chunkLen / 2, map[])
  }

  function Shift(f: FlatTape, d: int): (r: FlatTape)
    ensures r.pos == f.pos + d && r.written == f.written
  {
    f.(pos := f.pos + d)
  }

  function Put(f: FlatTape, b: Byte): (r: FlatTape)
    ensures r.pos == f.pos
    ensures forall fill: Fill, p :: Get(fill, r, p) == if p == f.pos then b else Get(fill, f, p)
  {
    f.(written := f.written[f.pos := b])
  }

  /** The chunked tape `t` represents the flat tape `f`. */
  ghost predicate Agrees(cfg: Config, t: Tape, f: FlatTape)
  {
    && Wf(cfg, t)
    && AbsPos(cfg, t) == f.pos
    && forall p :: Cell(cfg, t, p) == Get(cfg.fill, f, p)
  }

  /** First and one past the last absolute position held in a chunk. */
  function Low(cfg: Config, t: Tape): int
  {
    -(t.origin as int) * cfg.chunkLen
  }

  function High(cfg: Config, t: Tape): int
  {
    (|t.chunks| - t.origin) * cfg.chunkLen
  }

  /** Multiplying by a non-negative number keeps the order. */
  lemma MulMono(a: int, b: int, len: nat)
    requires a <= b
    ensures a * len <= b * len
  {
    MulNonneg(b - a, len);
    assert (b - a) * len == b * len - a * len;
  }

  /** A position whose chunk number lies in `lo..hi` lies in `lo * len .. hi * len`. */
  lemma ChunkRange(p: int, len: nat, k: int, lo: int, hi: int)
    requires len > 0 && k == p / len && lo <= k < hi
    ensures lo * len <= p < hi * len
  {
    assert p == k * len + p % len;
    MulMono(lo, k, len);
    MulMono(k + 1, hi, len);
    assert (k + 1) * len == k * len + len;
  }

  /** A position whose chunk exists lies between `Low` and `High`. */
  lemma InChunks(cfg: Config, t: Tape, p: int)
    requires Wf(cfg, t) && 0 <= p / cfg.chunkLen + t.origin < |t.chunks|
    ensures Low(cfg, t) <= p < High(cfg, t)
  {
    ChunkRange(p, cfg.chunkLen, p / cfg.chunkLen, -(t.origin as int), |t.chunks| - t.origin);
  }

  /** The flat tape a chunked tape represents: its position, and every cell
      of every allocated chunk as written. */
  function Abstract(cfg: Config, t: Tape): (f: FlatTape)
    requires Wf(cfg, t)
    ensures Agrees(cfg, t, f)
  {
    var f := FlatTape(AbsPos(cfg, t), map p | Low(cfg, t) <= p < High(cfg, t) :: Cell(cfg, t, p));
    assert forall p :: Cell(cfg, t, p) == Get(cfg.fill, f, p) by {
      forall p
        ensures Cell(cfg, t, p) == Get(cfg.fill, f, p)
      {
        if 0 <= p / cfg.chunkLen + t.origin < |t.chunks| {
          InChunks(cfg, t, p);
        }
      }
    }
    f
  }

  lemma InitAgrees(cfg: Config)
    requires Valid(cfg)
    ensures Agrees(cfg, Init(cfg), FlatStart(cfg))
  {
  }

  lemma ReadAgrees(cfg: Config, t: Tape, f: FlatTape)
    requires Agrees(cfg, t, f)
    ensures Read(cfg, t) == Here(cfg.fill, f)
  {
  }

  lemma MoveRightAgrees(cfg: Config, t: Tape, f: FlatTape)
    requires Agrees(cfg, t, f)
    ensures Agrees(cfg, MoveRight(cfg, t), Shift(f, 1))
  {
  }

  lemma MoveLeftAgrees(cfg: Config, t: Tape, f: FlatTape)
    requires Agrees(cfg, t, f)
    ensures Agrees(cfg, MoveLeft(cfg, t), Shift(f, -1))
  {
  }

  lemma WriteAgrees(cfg: Config, t: Tape, f: FlatTape, b: Byte)
    requires Agrees(cfg, t, f)
    ensures Agrees(cfg, Write(cfg, t, b), Put(f, b))
  {
  }
}
