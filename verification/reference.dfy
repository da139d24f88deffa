/** Brainfuck on the flat, bi-infinite tape, with the same dispatcher as
    the engine, and the proof that the chunked engine behaves exactly like
    it: same cursor, stack, byte streams and status after every step, and a
    tape holding the same cells. */
module Reference {
  import opened Base
  import opened Setup
  import opened Chunked
  import opened Flat
  import opened Engine

  datatype FlatMachine = FlatMachine(
    tape: FlatTape, pc: nat, stack: seq<nat>, input: seq<Byte>, output: seq<Byte>, status: Status)

  function FlatPerform(fill: Fill, e: Effect, m: FlatMachine): (r: FlatMachine)
    ensures r.pc == m.pc && r.stack == m.stack && r.status == m.status
  {
    match e
    case Stay => m
    case Forward => m.(tape := Shift(m.tape, 1))
    case Back => m.(tape := Shift(m.tape, -1))
    case Incr => m.(tape := Put(m.tape, Wrap(Here(fill, m.tape), 1)))
    case Decr => m.(tape := Put(m.tape, Wrap(Here(fill, m.tape), -1)))
    case Emit => m.(output := m.output + [Here(fill, m.tape)])
    case Accept =>
      var rest := if |m.input| == 0 then m.input else m.input[1..];
      m.(tape := Put(m.tape, NextInput(m.input)), input := rest)
  }

  function FlatStep(fill: Fill, src: seq<char>, m: FlatMachine): (r: FlatMachine)
    ensures !m.status.Running? ==> r == m
  {
    if !m.status.Running? then m
    else if m.pc >= |src| then m.(status := Finished)
    else
      match Dispatch(src, m.pc, m.stack, Here(fill, m.tape))
      case Stop(s) => m.(status := s)
      case Continue(e, pc, stack) => FlatPerform(fill, e, m.(pc := pc, stack := stack))
  }

  function FlatRun(fill: Fill, src: seq<char>, m: FlatMachine, fuel: nat): FlatMachine
    decreases fuel
  {
    if fuel == 0 || !m.status.Running? then m
    else FlatRun(fill, src, FlatStep(fill, src, m), fuel - 1)
  }

  /** The chunked machine `m` and the flat machine `fm` are in the same
      state. */
  ghost predicate Related(cfg: Config, m: Machine, fm: FlatMachine)
  {
    && Agrees(cfg, m.tape, fm.tape)
    && m.pc == fm.pc
    && m.stack == fm.stack
    && m.input == fm.input
    && m.output == fm.output
    && m.status == fm.status
  }

  /** The flat machine in the same state as a chunked one. */
  function Lift(cfg: Config, m: Machine): (fm: FlatMachine)
    requires Wf(cfg, m.tape)
    ensures Related(cfg, m, fm)
  {
    FlatMachine(Abstract(cfg, m.tape), m.pc, m.stack, m.input, m.output, m.status)
  }

  lemma PerformRefines(cfg: Config, e: Effect, m: Machine, fm: FlatMachine)
    requires Related(cfg, m, fm)
    ensures Related(cfg, Perform(cfg, e, m), FlatPerform(cfg.fill, e, fm))
  {
    ReadAgrees(cfg, m.tape, fm.tape);
    match e
    case Stay =>
    case Forward => MoveRightAgrees(cfg, m.tape, fm.tape);
    case Back => MoveLeftAgrees(cfg, m.tape, fm.tape);
    case Incr => WriteAgrees(cfg, m.tape, fm.tape, Wrap(Read(cfg, m.tape), 1));
    case Decr => WriteAgrees(cfg, m.tape, fm.tape, Wrap(Read(cfg, m.tape), -1));
    case Emit =>
    case Accept => WriteAgrees(cfg, m.tape, fm.tape, NextInput(m.input));
  }

  lemma StepRefines(cfg: Config, src: seq<char>, m: Machine, fm: FlatMachine)
    requires WfMachine(cfg, src, m) && Related(cfg, m, fm)
    ensures Related(cfg, Step(cfg, src, m), FlatStep(cfg.fill, src, fm))
  {
    if m.status.Running? && m.pc < |src| {
      ReadAgrees(cfg, m.tape, fm.tape);
      match Dispatch(src, m.pc, m.stack, Read(cfg, m.tape))
      case Stop(s) =>
      case Continue(e, pc, stack) =>
        PerformRefines(cfg, e, m.(pc := pc, stack := stack), fm.(pc := pc, stack := stack));
    }
  }

  /** Any number of steps of the chunked engine match as many of the flat
      one. */
  lemma {:induction false} RunRefines(cfg: Config, src: seq<char>, m: Machine, fm: FlatMachine, fuel: nat)
    requires WfMachine(cfg, src, m) && Related(cfg, m, fm)
    ensures Related(cfg, Run(cfg, src, m, fuel), FlatRun(cfg.fill, src, fm, fuel))
    decreases fuel
  {
    if fuel > 0 && m.status.Running? {
      StepRefines(cfg, src, m, fm);
      RunRefines(cfg, src, Step(cfg, src, m), FlatStep(cfg.fill, src, fm), fuel - 1);
    }
  }

  /** An `execute` call on a chunked tape writes the same bytes, consumes the
      same input and ends in the same status as brainfuck on the flat tape
      it represents, and leaves a tape representing the flat result. */
  lemma ExecuteRefines(cfg: Config, buf: seq<char>, t: Tape, f: FlatTape, input: seq<Byte>, fuel: nat)
    requires Agrees(cfg, t, f)
    ensures var r := Execute(cfg, Some(buf), t, input, fuel);
      var fm := FlatRun(cfg.fill, Text(buf), FlatMachine(f, 0, [], input, [], Running), fuel);
      && r.output == fm.output
      && r.input == fm.input
      && r.status == fm.status
      && Agrees(cfg, r.tape, fm.tape)
  {
    RunRefines(cfg, Text(buf), Start(t, input), FlatMachine(f, 0, [], input, [], Running), fuel);
  }

  /** From start-up, the chunked engine is brainfuck on a flat tape whose
      head starts at `chunkLen / 2`. */
  lemma FromStartUp(cfg: Config, buf: seq<char>, input: seq<Byte>, fuel: nat)
    requires Valid(cfg)
    ensures var r := Execute(cfg, Some(buf), Init(cfg), input, fuel);
      var fm := FlatRun(cfg.fill, Text(buf), FlatMachine(FlatStart(cfg), 0, [], input, [], Running), fuel);
      r.output == fm.output && r.input == fm.input && r.status == fm.status && Agrees(cfg, r.tape, fm.tape)
  {
    InitAgrees(cfg);
    ExecuteRefines(cfg, buf, Init(cfg), FlatStart(cfg), input, fuel);
  }
}
