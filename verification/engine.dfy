/** The execution engine (`execute`): one cursor walks the program text,
    dispatching the eight operators; `[` and `]` consult the bracket resolver
    and the jump stack. Standard input and output are byte sequences, and
    since programs need not halt, running is bounded by fuel. */
module Engine {
  import opened Base
  import opened Setup
  import opened Chunked
  import opened Brackets
  import opened JumpStack

  /** Diagnostics that end one execution; the host carries on. */
  datatype Diagnostic =
    | NoMatchingClose(at: nat)   // "'[' with no matching ']'"
    | NoMatchingOpen(at: nat)    // "']' with no matching '['"

  /** `Crashed` is a `]` on a zero cell with an empty stack: `pop_jump`
      fails its assertion (bfin) or dereferences NULL (bfvm), ending the
      process. */
  datatype Status = Running | Finished | Diagnosed(diag: Diagnostic) | Crashed(at: nat)

  /** What an operator does to the tape and the byte streams. */
  datatype Effect = Stay | Forward | Back | Incr | Decr | Emit | Accept

  /** The decision taken at one character: carry on at a new cursor position
      with a new stack after an effect, or stop. */
  datatype Control = Continue(effect: Effect, pc: nat, stack: Stack) | Stop(status: Status)

  /** The brackets, which consult the resolver and the jump stack. */
  predicate IsBracket(c: char)
  {
    c == '[' || c == ']'
  }

  /** The six operators that act on the tape or the byte streams. */
  predicate IsCellOp(c: char)
  {
    c == '>' || c == '<' || c == '+' || c == '-' || c == '.' || c == ','
  }

  /** The `switch` of `execute` at the character under the cursor, given
      the current cell. Every continuing case lands one past the character
      the cursor ends up on, as the loop's `++c` does. */
  function Dispatch(src: seq<char>, pc: nat, stack: Stack, cell: Byte): (r: Control)
    requires pc < |src|
    ensures r.Stop? ==> IsBracket(src[pc]) && (r.status.Diagnosed? || r.status.Crashed?)
    ensures r.Continue? && r.effect != Stay ==> IsCellOp(src[pc]) && r.pc == pc + 1 && r.stack == stack
    ensures !IsCellOp(src[pc]) && !IsBracket(src[pc]) ==> r == Continue(Stay, pc + 1, stack)
  {
    match src[pc]
    case '>' => Continue(Forward, pc + 1, stack)
    case '<' => Continue(Back, pc + 1, stack)
    case '+' => Continue(Incr, pc + 1, stack)
    case '-' => Continue(Decr, pc + 1, stack)
    case '.' => Continue(Emit, pc + 1, stack)
    case ',' => Continue(Accept, pc + 1, stack)
    case '[' =>
      var right := MatchRight(src, pc);
      if cell == 0 then
        if right.None? then Stop(Diagnosed(NoMatchingClose(pc)))
        else Continue(Stay, right.value + 1, stack)
      else if right.Some? then Continue(Stay, pc + 1, Push(stack, pc))
      else Continue(Stay, pc + 1, stack)
    case ']' =>
      if cell != 0 then
        if |stack| == 0 then Stop(Diagnosed(NoMatchingOpen(pc)))
        else Continue(Stay, Top(stack) + 1, stack)
      else if |stack| == 0 then Stop(Crashed(pc))
      else Continue(Stay, pc + 1, Pop(stack))
    case _ => Continue(Stay, pc + 1, stack)
  }

  /** Interpreter state during one `execute` call. `input` is what standard
      input still holds; `output` is what has been written so far. */
  datatype Machine = Machine(
    tape: Tape, pc: nat, stack: Stack, input: seq<Byte>, output: seq<Byte>, status: Status)

  /** The cursor stays within the text (the end being the terminator) and
      every stack entry is the position of a `[`. */
  predicate WfMachine(cfg: Config, src: seq<char>, m: Machine)
  {
    && Wf(cfg, m.tape)
    && m.pc <= |src|
    && forall k :: 0 <= k < |m.stack| ==> m.stack[k] < |src| && src[m.stack[k]] == '['
  }

  /** The byte `,` stores: the next input byte, or `getchar`'s EOF truncated
      to a cell. */
  function NextInput(input: seq<Byte>): (b: Byte)
    ensures |input| > 0 ==> b == input[0]
    ensures |input| == 0 ==> b == EofByte
  {
    if |input| == 0 then EofByte else input[0]
  }

  /** Applies an operator's effect to the tape and the byte streams. */
  function Perform(cfg: Config, e: Effect, m: Machine): (r: Machine)
    requires Wf(cfg, m.tape)
    ensures Wf(cfg, r.tape)
    ensures r.pc == m.pc && r.stack == m.stack && r.status == m.status
    ensures r.output == m.output || (e == Emit && r.output == m.output + [Read(cfg, m.tape)])
    ensures r.input == m.input || (e == Accept && |m.input| > 0 && r.input == m.input[1..])
  {
    match e
    case Stay => m
    case Forward => m.(tape := MoveRight(cfg, m.tape))
    case Back => m.(tape := MoveLeft(cfg, m.tape))
    case Incr => m.(tape := Increment(cfg, m.tape))
    case Decr => m.(tape := Decrement(cfg, m.tape))
    case Emit => m.(output := m.output + [Read(cfg, m.tape)])
    case Accept =>
      var rest := if |m.input| == 0 then m.input else m.input[1..];
      m.(tape := Write(cfg, m.tape, NextInput(m.input)), input := rest)
  }

  /** One iteration of the `for` loop of `execute`. A halted machine stays as
      it is; at the terminator the loop ends normally. */
  function Step(cfg: Config, src: seq<char>, m: Machine): (r: Machine)
    requires WfMachine(cfg, src, m)
    ensures WfMachine(cfg, src, r)
    ensures !m.status.Running? ==> r == m
    ensures m.output <= r.output && |r.output| <= |m.output| + 1
    ensures |r.input| <= |m.input| && r.input == m.input[|m.input| - |r.input|..]
    ensures r.status.Finished? && m.status.Running? ==> m.pc == |src| && r.tape == m.tape
  {
    if !m.status.Running? then m
    else if m.pc == |src| then m.(status := Finished)
    else
      match Dispatch(src, m.pc, m.stack, Read(cfg, m.tape))
      case Stop(s) => m.(status := s)
      case Continue(e, pc, stack) => Perform(cfg, e, m.(pc := pc, stack := stack))
  }

  /** At most `fuel` steps. */
  function Run(cfg: Config, src: seq<char>, m: Machine, fuel: nat): (r: Machine)
    requires WfMachine(cfg, src, m)
    ensures WfMachine(cfg, src, r)
    ensures m.output <= r.output && |r.output| <= |m.output| + fuel
    ensures |r.input| <= |m.input| && r.input == m.input[|m.input| - |r.input|..]
    ensures !m.status.Running? ==> r == m
    decreases fuel
  {
    if fuel == 0 || !m.status.Running? then m
    else Run(cfg, src, Step(cfg, src, m), fuel - 1)
  }

  /** The program text the C loop sees: everything before the first NUL. */
  function Text(buf: seq<char>): (s: seq<char>)
    ensures s <= buf
    ensures '\0' !in s
    ensures |s| < |buf| ==> buf[|s|] == '\0'
  {
    if |buf| == 0 || buf[0] == '\0' then [] else [buf[0]] + Text(buf[1..])
  }

  /** What one `execute` call leaves behind. The jump stack is discarded
      (`destroy_jumpstack`), so it is not part of the result; the tape
      carries over to the next line. */
  datatype Report = Report(tape: Tape, input: seq<Byte>, output: seq<Byte>, status: Status)

  /** The machine `execute` starts from: cursor at the first character,
      empty jump stack, nothing written yet. */
  function Start(tape: Tape, input: seq<Byte>): Machine
  {
    Machine(tape, 0, [], input, [], Running)
  }

  /** `execute(line)`: a NULL line (the reader already reported its failure)
      does nothing; otherwise the text before the NUL runs for at most
      `fuel` steps. A Running status means the fuel ran out. */
  function Execute(cfg: Config, line: Option<seq<char>>, tape: Tape, input: seq<Byte>, fuel: nat): (r: Report)
    requires Wf(cfg, tape)
    ensures Wf(cfg, r.tape)
    ensures line.None? ==> r == Report(tape, input, [], Finished)
    ensures |r.output| <= fuel
    ensures |r.input| <= |input| && r.input == input[|input| - |r.input|..]
  {
    match line
    case None => Report(tape, input, [], Finished)
    case Some(buf) =>
      var m := Run(cfg, Text(buf), Start(tape, input), fuel);
      Report(m.tape, m.input, m.output, m.status)
  }
}
