/** Start-up parameters of the interpreter: the chunk length derived from the
    host page size, and what a freshly allocated chunk contains. The two
    programs of the repository differ only here. */
module Setup {
  import opened Base

  /** `bfin` is the interpreter of src/bfin.c, `bfvm` the one of src/bfvm.c. */
  datatype Variant = Bfin | Bfvm

  /** Bytes each variant subtracts from the page size so that the allocator's
      own header still fits in one page. */
  function Reserve(v: Variant): nat
  {
    match v
    case Bfin => 32
    case Bfvm => 8
  }

  /** The chunk length exactly as both programs compute it: subtract the
      reserve, and add it back only when the difference is negative. A page
      size equal to the reserve therefore yields an empty chunk. */
  function ChunkLenAsWritten(v: Variant, pageSize: nat): (r: int)
    requires pageSize > 0
    ensures 0 <= r <= pageSize
    ensures r == 0 <==> pageSize == Reserve(v)
  {
    var len := pageSize - Reserve(v);
    if len < 0 then len + Reserve(v) else len
  }

  /** The page size 32 makes `bfin` (and 8 makes `bfvm`) ask for chunks of
      length 0: the allocator either fails, and the program exits at
      start-up, or hands back an empty chunk, and the data pointer set up at
      offset 0 of it lies outside it. */
  lemma ChunkLenAsWrittenEmpty()
    ensures ChunkLenAsWritten(Bfin, 32) == 0
    ensures ChunkLenAsWritten(Bfvm, 8) == 0
  {
  }

  /** The chunk length the programs evidently intend: the page size less the
      reserve, or the whole page when the reserve would leave nothing. */
  function ChunkLen(v: Variant, pageSize: nat): (r: nat)
    requires pageSize > 0
    ensures 0 < r <= pageSize
    ensures pageSize > Reserve(v) ==> r == pageSize - Reserve(v)
    ensures pageSize <= Reserve(v) ==> r == pageSize
    ensures r == ChunkLenAsWritten(v, pageSize) <==> pageSize != Reserve(v)
  {
    var len := pageSize - Reserve(v);
    if len <= 0 then len + Reserve(v) else len
  }

  /** Contents of a newly allocated chunk. `malloc` (bfin) leaves them
      unspecified: `junk` says, for every absolute tape position, what byte
      happens to be there when its chunk is allocated. `calloc` (bfvm)
      zero-fills. */
  datatype Fill = Zeroed | Uninitialized(junk: int -> Byte)

  /** The value absolute tape position `p` holds before anything writes it. */
  function Initial(fill: Fill, p: int): Byte
  {
    match fill
    case Zeroed => 0
    case Uninitialized(junk) => junk(p)
  }

  /** Everything the engine needs to know about the host. */
  datatype Config = Config(chunkLen: nat, fill: Fill)

  predicate Valid(cfg: Config)
  {
    cfg.chunkLen > 0
  }

  /** How each variant allocates chunk memory. */
  function FillOf(v: Variant, junk: int -> Byte): (f: Fill)
    ensures v == Bfvm ==> forall p :: Initial(f, p) == 0
    ensures v == Bfin ==> forall p :: Initial(f, p) == junk(p)
  {
    match v
    case Bfin => Uninitialized(junk)
    case Bfvm => Zeroed
  }

  /** The configuration a variant sets up on a host with the given page size. */
  function ConfigFor(v: Variant, pageSize: nat, junk: int -> Byte): (cfg: Config)
    requires pageSize > 0
    ensures Valid(cfg)
    ensures pageSize > Reserve(v) ==> cfg.chunkLen == pageSize - Reserve(v)
    ensures pageSize <= Reserve(v) ==> cfg.chunkLen == pageSize
    ensures v == Bfvm ==> forall p :: Initial(cfg.fill, p) == 0
    ensures v == Bfin ==> forall p :: Initial(cfg.fill, p) == junk(p)
  {
    Config(ChunkLen(v, pageSize), FillOf(v, junk))
  }
}
