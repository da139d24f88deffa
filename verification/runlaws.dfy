/** Laws over whole runs, proved on the flat machine, where a step is cheap
    to reason about, and carried over to the chunked engine through the
    refinement. */
module RunLaws {
  import opened Base
  import opened Setup
  import opened Chunked
  import opened Flat
  import opened Brackets
  import opened Engine
  import opened Reference

  /** How one character changes the current cell: `+` adds one, `-`
      subtracts one. */
  function Delta(c: char): int
  {
    if c == '+' then 1 else if c == '-' then -1 else 0
  }

  /** The net effect of the `+` and `-` in `s` on a cell: the count of `+`
      minus the count of `-`. */
  function Tally(s: seq<char>): (n: int)
    ensures -|s| <= n <= |s|
  {
    if |s| == 0 then 0 else Delta(s[0]) + Tally(s[1..])
  }

  lemma ModAddLeft(a: int, b: int)
    ensures (a % 256 + b) % 256 == (a + b) % 256
  {
  }

  /** The effect a run of `+` and `-` from `m` should have on the flat
      machine: finished at the end of the text, same stack, streams and
      position, the current cell moved by `Tally` modulo 256 and every other
      cell as it was. */
  ghost predicate CountedUp(fill: Fill, src: seq<char>, m: FlatMachine, r: FlatMachine)
    requires m.pc <= |src|
  {
    && r.status == Finished && r.pc == |src| && r.stack == m.stack
    && r.input == m.input && r.output == m.output
    && r.tape.pos == m.tape.pos
    && Here(fill, r.tape) == (Here(fill, m.tape) + Tally(src[m.pc..])) % 256
    && forall p :: p != m.tape.pos ==> Get(fill, r.tape, p) == Get(fill, m.tape, p)
  }

  /** On the flat machine `+` and `-` write the current cell moved by one. */
  lemma FlatStepIncDec(fill: Fill, src: seq<char>, m: FlatMachine)
    requires m.status.Running? && m.pc < |src| && (src[m.pc] == '+' || src[m.pc] == '-')
    ensures FlatStep(fill, src, m)
         == m.(pc := m.pc + 1, tape := Put(m.tape, Wrap(Here(fill, m.tape), Delta(src[m.pc]))))
  {
  }

  /** One `+` or `-` followed by a run that counted up from the next
      machine counts up from the first. */
  lemma CountedUpStep(fill: Fill, src: seq<char>, m: FlatMachine, r: FlatMachine)
    requires m.status.Running? && m.pc < |src| && (src[m.pc] == '+' || src[m.pc] == '-')
    requires CountedUp(fill, src, FlatStep(fill, src, m), r)
    ensures CountedUp(fill, src, m, r)
  {
    FlatStepIncDec(fill, src, m);
    var v, w, rest := Here(fill, m.tape), Delta(src[m.pc]), Tally(src[m.pc + 1..]);
    assert Here(fill, FlatStep(fill, src, m).tape) == (v + w) % 256;
    assert src[m.pc..][1..] == src[m.pc + 1..];
    ModAddLeft(v + w, rest);
  }

  /** The wrap-around law on the flat machine: a run of `+` and `-` to the
      end of the text leaves the current cell at its old value plus the
      count of `+` minus the count of `-`, modulo 256, and changes nothing
      else. */
  lemma {:induction false} FlatCounterLaw(fill: Fill, src: seq<char>, m: FlatMachine, fuel: nat)
    requires m.status.Running? && m.pc <= |src|
    requires forall k :: m.pc <= k < |src| ==> src[k] == '+' || src[k] == '-'
    requires fuel > |src| - m.pc
    ensures CountedUp(fill, src, m, FlatRun(fill, src, m, fuel))
    decreases fuel
  {
    var m' := FlatStep(fill, src, m);
    if m.pc == |src| {
      assert FlatRun(fill, src, m', fuel - 1) == m';
    } else {
      FlatCounterLaw(fill, src, m', fuel - 1);
      CountedUpStep(fill, src, m, FlatRun(fill, src, m', fuel - 1));
    }
  }

  /** What `CountedUp` says of two flat machines holds of chunked machines
      in the same states. */
  ghost predicate ChunkedCountedUp(cfg: Config, src: seq<char>, m: Machine, r: Machine)
    requires Wf(cfg, m.tape) && Wf(cfg, r.tape) && m.pc <= |src|
  {
    var pos := AbsPos(cfg, m.tape);
    && r.status == Finished && r.pc == |src| && r.stack == m.stack
    && r.input == m.input && r.output == m.output
    && AbsPos(cfg, r.tape) == pos
    && Read(cfg, r.tape) == (Read(cfg, m.tape) + Tally(src[m.pc..])) % 256
    && forall p :: p != pos ==> Cell(cfg, r.tape, p) == Cell(cfg, m.tape, p)
  }

  lemma CountedUpTransfers(cfg: Config, src: seq<char>, m: Machine, fm: FlatMachine, r: Machine, fr: FlatMachine)
    requires Related(cfg, m, fm) && Related(cfg, r, fr) && m.pc <= |src|
    requires CountedUp(cfg.fill, src, fm, fr)
    ensures ChunkedCountedUp(cfg, src, m, r)
  {
    ReadAgrees(cfg, m.tape, fm.tape);
    ReadAgrees(cfg, r.tape, fr.tape);
  }

  /** The wrap-around law for the engine itself: a run of `+` and `-` to
      the end of the text finishes there, leaves the current cell at its old
      value plus the count of `+` minus the count of `-`, modulo 256, and
      changes no other cell, the position, the stack or the streams. */
  lemma CounterLaw(cfg: Config, src: seq<char>, m: Machine, fuel: nat)
    requires WfMachine(cfg, src, m) && m.status.Running?
    requires forall k :: m.pc <= k < |src| ==> src[k] == '+' || src[k] == '-'
    requires fuel > |src| - m.pc
    ensures ChunkedCountedUp(cfg, src, m, Run(cfg, src, m, fuel))
  {
    var fm := Lift(cfg, m);
    RunRefines(cfg, src, m, fm, fuel);
    FlatCounterLaw(cfg.fill, src, fm, fuel);
    CountedUpTransfers(cfg, src, m, fm, Run(cfg, src, m, fuel), FlatRun(cfg.fill, src, fm, fuel));
  }

  /** The line `[-]` has cleared the current cell of `m`: the run finished
      at the end of the line with the stack empty, the streams and the
      position as they were, the current cell zero and every other cell as
      it was. */
  ghost predicate Cleared(fill: Fill, m: FlatMachine, r: FlatMachine)
  {
    && r.status == Finished && r.pc == 3 && r.stack == []
    && r.input == m.input && r.output == m.output
    && r.tape.pos == m.tape.pos
    && Here(fill, r.tape) == 0
    && forall p :: p != m.tape.pos ==> Get(fill, r.tape, p) == Get(fill, m.tape, p)
  }

  /** Inside the loop of `[-]`, about to decrement a nonzero cell: each
      round trip decrements once and jumps back past the `[`, whose entry
      stays on the stack, until the `]` meets a zero cell, pops and leaves. */
  lemma {:induction false} ClearLoopRounds(fill: Fill, m: FlatMachine, fuel: nat)
    requires m.status.Running? && m.pc == 1 && m.stack == [0]
    requires Here(fill, m.tape) > 0 && fuel >= 2 * Here(fill, m.tape) + 1
    ensures Cleared(fill, m, FlatRun(fill, "[-]", m, fuel))
    decreases Here(fill, m.tape)
  {
    var src := "[-]";
    var m1 := FlatStep(fill, src, m);
    assert m1.pc == 2 && m1.stack == [0] && m1.tape == Put(m.tape, Wrap(Here(fill, m.tape), -1));
    var m2 := FlatStep(fill, src, m1);
    assert FlatRun(fill, src, m, fuel) == FlatRun(fill, src, m1, fuel - 1);
    assert FlatRun(fill, src, m1, fuel - 1) == FlatRun(fill, src, m2, fuel - 2);
    if Here(fill, m.tape) == 1 {
      assert m2 == m1.(pc := 3, stack := []);
      var m3 := FlatStep(fill, src, m2);
      assert m3 == m2.(status := Finished);
      assert FlatRun(fill, src, m3, fuel - 3) == m3;
    } else {
      assert m2 == m1.(pc := 1);
      ClearLoopRounds(fill, m2, fuel - 2);
    }
  }

  /** `[-]` clears the current cell on the flat machine: a zero cell skips
      the loop at once, any other is decremented to zero. */
  lemma FlatClearLoop(fill: Fill, m: FlatMachine, fuel: nat)
    requires m.status.Running? && m.pc == 0 && m.stack == []
    requires fuel >= 2 * Here(fill, m.tape) + 2
    ensures Cleared(fill, m, FlatRun(fill, "[-]", m, fuel))
  {
    var src := "[-]";
    var m1 := FlatStep(fill, src, m);
    assert FlatRun(fill, src, m, fuel) == FlatRun(fill, src, m1, fuel - 1);
    if Here(fill, m.tape) == 0 {
      MatchRightIsLeastMatch(src, 0);
      assert IsMatch(src, 0, 2);
      assert m1 == m.(pc := 3);
      var m2 := FlatStep(fill, src, m1);
      assert m2 == m1.(status := Finished);
      assert FlatRun(fill, src, m2, fuel - 2) == m2;
    } else {
      MatchRightIsLeastMatch(src, 0);
      assert IsMatch(src, 0, 2);
      assert m1 == m.(pc := 1, stack := [0]);
      ClearLoopRounds(fill, m1, fuel - 1);
    }
  }

  /** `Cleared` for chunked machines. */
  ghost predicate ChunkedCleared(cfg: Config, m: Machine, r: Machine)
    requires Wf(cfg, m.tape) && Wf(cfg, r.tape)
  {
    var pos := AbsPos(cfg, m.tape);
    && r.status == Finished && r.pc == 3 && r.stack == []
    && r.input == m.input && r.output == m.output
    && AbsPos(cfg, r.tape) == pos
    && Read(cfg, r.tape) == 0
    && forall p :: p != pos ==> Cell(cfg, r.tape, p) == Cell(cfg, m.tape, p)
  }

  lemma ClearedTransfers(cfg: Config, m: Machine, fm: FlatMachine, r: Machine, fr: FlatMachine)
    requires Related(cfg, m, fm) && Related(cfg, r, fr)
    requires Cleared(cfg.fill, fm, fr)
    ensures ChunkedCleared(cfg, m, r)
  {
    ReadAgrees(cfg, r.tape, fr.tape);
  }

  /** The engine runs `[-]` to a cleared cell: whatever the current cell
      holds, after at most twice its value plus two steps the line has
      finished, the cell is zero and nothing else has changed. */
  lemma ClearLoop(cfg: Config, m: Machine, fuel: nat)
    requires WfMachine(cfg, "[-]", m) && m.status.Running? && m.pc == 0 && m.stack == []
    requires fuel >= 2 * Read(cfg, m.tape) + 2
    ensures ChunkedCleared(cfg, m, Run(cfg, "[-]", m, fuel))
  {
    var fm := Lift(cfg, m);
    ReadAgrees(cfg, m.tape, fm.tape);
    RunRefines(cfg, "[-]", m, fm, fuel);
    FlatClearLoop(cfg.fill, fm, fuel);
    ClearedTransfers(cfg, m, fm, Run(cfg, "[-]", m, fuel), FlatRun(cfg.fill, "[-]", fm, fuel));
  }
}
