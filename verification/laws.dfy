/** What one step does for each operator, stated through the flat view of
    the tape (absolute position and cell values) and the bracket
    specification. Laws over whole runs are in `RunLaws`. */
module Laws {
  import opened Base
  import opened Setup
  import opened Chunked
  import opened Brackets
  import opened JumpStack
  import opened Engine

  /** The machine is about to execute the character at its cursor. */
  predicate AtOp(src: seq<char>, m: Machine, c: char)
  {
    m.status.Running? && m.pc < |src| && src[m.pc] == c
  }

  /** `+` and `-` change the current cell by one modulo 256 and nothing else:
      no other cell, not the position, not the stack or the streams. */
  lemma StepIncDec(cfg: Config, src: seq<char>, m: Machine)
    requires WfMachine(cfg, src, m)
    requires AtOp(src, m, '+') || AtOp(src, m, '-')
    ensures var r := Step(cfg, src, m); var pos := AbsPos(cfg, m.tape);
      && r.status.Running? && r.pc == m.pc + 1 && r.stack == m.stack
      && r.input == m.input && r.output == m.output
      && AbsPos(cfg, r.tape) == pos
      && (src[m.pc] == '+' ==> Read(cfg, r.tape) == (Read(cfg, m.tape) + 1) % 256)
      && (src[m.pc] == '-' ==> Read(cfg, r.tape) == (Read(cfg, m.tape) + 255) % 256)
      && forall p :: p != pos ==> Cell(cfg, r.tape, p) == Cell(cfg, m.tape, p)
  {
  }

  /** `>` and `<` move the absolute position by exactly one, keep the offset
      inside the chunk, and change no cell. */
  lemma StepMove(cfg: Config, src: seq<char>, m: Machine)
    requires WfMachine(cfg, src, m)
    requires AtOp(src, m, '>') || AtOp(src, m, '<')
    ensures var r := Step(cfg, src, m);
      && r.status.Running? && r.pc == m.pc + 1 && r.stack == m.stack
      && r.input == m.input && r.output == m.output
      && r.tape.off < cfg.chunkLen
      && AbsPos(cfg, r.tape) == AbsPos(cfg, m.tape) + (if src[m.pc] == '>' then 1 else -1)
      && forall p :: Cell(cfg, r.tape, p) == Cell(cfg, m.tape, p)
  {
  }

  /** `.` appends the current cell to the output; `,` overwrites it with the
      next input byte, or 255 at end of input. Neither moves the tape. */
  lemma StepIo(cfg: Config, src: seq<char>, m: Machine)
    requires WfMachine(cfg, src, m)
    requires AtOp(src, m, '.') || AtOp(src, m, ',')
    ensures var r := Step(cfg, src, m); var pos := AbsPos(cfg, m.tape);
      && r.status.Running? && r.pc == m.pc + 1 && r.stack == m.stack
      && AbsPos(cfg, r.tape) == pos
      && (src[m.pc] == '.' ==> r.output == m.output + [Read(cfg, m.tape)] && r.input == m.input && r.tape == m.tape)
      && (src[m.pc] == ',' && |m.input| > 0 ==>
            Read(cfg, r.tape) == m.input[0] && r.input == m.input[1..] && r.output == m.output)
      && (src[m.pc] == ',' && |m.input| == 0 ==>
            Read(cfg, r.tape) == 255 && r.input == [] && r.output == m.output)
      && forall p :: p != pos ==> Cell(cfg, r.tape, p) == Cell(cfg, m.tape, p)
  {
  }

  /** `[` on a zero cell skips the loop: the cursor lands on the `]` that
      closes it and the loop's increment moves past it, so that `]` is not
      evaluated. With no such `]` execution stops with a diagnostic. */
  lemma StepOpenOnZero(cfg: Config, src: seq<char>, m: Machine)
    requires WfMachine(cfg, src, m)
    requires AtOp(src, m, '[') && Read(cfg, m.tape) == 0
    ensures var r := Step(cfg, src, m);
      && r.tape == m.tape && r.stack == m.stack && r.input == m.input && r.output == m.output
      && (r.status.Running? <==> exists j :: IsMatch(src, m.pc, j))
      && (r.status.Running? ==> r.pc > 0 && IsMatch(src, m.pc, r.pc - 1)
                                && forall k :: m.pc < k < r.pc - 1 ==> !IsMatch(src, m.pc, k))
      && (!r.status.Running? ==> r.status == Diagnosed(NoMatchingClose(m.pc)))
  {
    SkipTarget(cfg, src, m);
    MatchRightIsLeastMatch(src, m.pc);
  }

  /** Where `[` on a zero cell sends the cursor, in terms of `match_right`. */
  lemma SkipTarget(cfg: Config, src: seq<char>, m: Machine)
    requires WfMachine(cfg, src, m)
    requires AtOp(src, m, '[') && Read(cfg, m.tape) == 0
    ensures var right := MatchRight(src, m.pc);
      Step(cfg, src, m)
      == if right.None? then m.(status := Diagnosed(NoMatchingClose(m.pc))) else m.(pc := right.value + 1)
  {
    var right := MatchRight(src, m.pc);
    assert Dispatch(src, m.pc, m.stack, 0)
        == if right.None? then Stop(Diagnosed(NoMatchingClose(m.pc))) else Continue(Stay, right.value + 1, m.stack);
  }

  /** `[` on a nonzero cell enters the loop. Its position is pushed only when
      a closing `]` exists; without one nothing is pushed and nothing is
      reported. */
  lemma StepOpenOnNonzero(cfg: Config, src: seq<char>, m: Machine)
    requires WfMachine(cfg, src, m)
    requires AtOp(src, m, '[') && Read(cfg, m.tape) != 0
    ensures var r := Step(cfg, src, m);
      && r.status.Running? && r.pc == m.pc + 1
      && r.tape == m.tape && r.input == m.input && r.output == m.output
      && ((exists j :: IsMatch(src, m.pc, j)) ==> r.stack == Push(m.stack, m.pc))
      && ((forall j :: !IsMatch(src, m.pc, j)) ==> r.stack == m.stack)
  {
    EnterTarget(cfg, src, m);
    MatchRightIsLeastMatch(src, m.pc);
  }

  /** What `[` on a nonzero cell does to cursor and stack, in terms of
      `match_right`. */
  lemma EnterTarget(cfg: Config, src: seq<char>, m: Machine)
    requires WfMachine(cfg, src, m)
    requires AtOp(src, m, '[') && Read(cfg, m.tape) != 0
    ensures var right := MatchRight(src, m.pc);
      Step(cfg, src, m) == m.(pc := m.pc + 1, stack := if right.Some? then Push(m.stack, m.pc) else m.stack)
  {
    var right := MatchRight(src, m.pc);
    assert Dispatch(src, m.pc, m.stack, Read(cfg, m.tape))
        == Continue(Stay, m.pc + 1, if right.Some? then Push(m.stack, m.pc) else m.stack);
  }

  /** `]` on a nonzero cell repeats the loop: the cursor goes back to the
      `[` on top of the stack, which stays pushed, and the loop's increment
      moves past it. With an empty stack execution stops with a
      diagnostic. */
  lemma StepCloseOnNonzero(cfg: Config, src: seq<char>, m: Machine)
    requires WfMachine(cfg, src, m)
    requires AtOp(src, m, ']') && Read(cfg, m.tape) != 0
    ensures var r := Step(cfg, src, m);
      && r.tape == m.tape && r.stack == m.stack && r.input == m.input && r.output == m.output
      && (|m.stack| == 0 ==> r.status == Diagnosed(NoMatchingOpen(m.pc)))
      && (|m.stack| > 0 ==> r.status.Running? && r.pc == Top(m.stack) + 1 && src[r.pc - 1] == '[')
  {
  }

  /** `]` on a zero cell leaves the loop and pops its entry; `pop_jump` on an
      empty stack ends the process. */
  lemma StepCloseOnZero(cfg: Config, src: seq<char>, m: Machine)
    requires WfMachine(cfg, src, m)
    requires AtOp(src, m, ']') && Read(cfg, m.tape) == 0
    ensures var r := Step(cfg, src, m);
      && r.tape == m.tape && r.input == m.input && r.output == m.output
      && (|m.stack| == 0 ==> r.status == Crashed(m.pc))
      && (|m.stack| > 0 ==> r.status.Running? && r.pc == m.pc + 1 && Push(r.stack, Top(m.stack)) == m.stack)
  {
  }

  /** Any other character is skipped. */
  lemma StepOther(cfg: Config, src: seq<char>, m: Machine)
    requires WfMachine(cfg, src, m)
    requires m.status.Running? && m.pc < |src| && !IsCellOp(src[m.pc]) && !IsBracket(src[m.pc])
    ensures Step(cfg, src, m) == m.(pc := m.pc + 1)
  {
  }

  /** At the terminator the run finishes and nothing else changes. */
  lemma StepAtEnd(cfg: Config, src: seq<char>, m: Machine)
    requires WfMachine(cfg, src, m)
    requires m.status.Running? && m.pc == |src|
    ensures Step(cfg, src, m) == m.(status := Finished)
  {
  }
}
