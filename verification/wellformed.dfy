/** Programs whose brackets pair up never reach either diagnostic and never
    crash, and the jump stack always holds exactly the `[` brackets that
    are still open at the cursor, innermost on top. In particular the entry
    a `]` jumps back to is its own matching `[`. */
module WellFormed {
  import opened Base
  import opened Setup
  import opened Chunked
  import opened Brackets
  import opened JumpStack
  import opened Flat
  import opened Engine
  import opened Reference

  /** The `[` positions in `src[..n]` that no later `]` in it closes,
      innermost last: the stack a left-to-right reader pairing brackets
      would hold after `n` characters. */
  function Open(src: seq<char>, n: nat): (r: Stack)
    requires n <= |src|
    ensures forall k :: 0 <= k < |r| ==> r[k] < n && src[r[k]] == '['
  {
    if n == 0 then []
    else
      var s := Open(src, n - 1);
      if src[n - 1] == '[' then s + [n - 1]
      else if src[n - 1] == ']' && |s| > 0 then s[..|s| - 1]
      else s
  }

  /** Reading one more character: a `[` is pushed, a `]` pops when
      something is open, anything else leaves the open brackets alone. */
  lemma OpenStep(src: seq<char>, n: nat)
    requires n < |src|
    ensures src[n] == '[' ==> Open(src, n + 1) == Push(Open(src, n), n)
    ensures src[n] == ']' && |Open(src, n)| > 0 ==> Open(src, n + 1) == Pop(Open(src, n))
    ensures !IsBracket(src[n]) ==> Open(src, n + 1) == Open(src, n)
  {
  }

  /** While no prefix closes more than it opens, the open brackets number
      exactly the net depth. */
  lemma {:induction false} OpenDepth(src: seq<char>, n: nat)
    requires n <= |src| && NeverBelow(src, 0, n)
    ensures |Open(src, n)| == Net(src, 0, n)
  {
    if n > 0 {
      assert Net(src, 0, n - 1) >= 0;
      OpenDepth(src, n - 1);
    }
  }

  /** Brackets open at `a` stay open, below anything opened later, as long as
      the depth does not drop below its level at `a`. */
  lemma {:induction false} OpenKeepsPrefix(src: seq<char>, a: nat, n: nat)
    requires a <= n <= |src| && NeverBelow(src, 0, n)
    requires forall k :: a <= k <= n ==> Net(src, 0, k) >= Net(src, 0, a)
    ensures Open(src, a) <= Open(src, n)
    decreases n
  {
    if a < n {
      OpenKeepsPrefix(src, a, n - 1);
      var s := Open(src, n - 1);
      if src[n - 1] == ']' {
        assert Net(src, 0, n) == Net(src, 0, n - 1) - 1;
        assert Net(src, 0, n) >= Net(src, 0, a);
        assert NeverBelow(src, 0, n - 1);
        assert NeverBelow(src, 0, a);
        OpenDepth(src, n - 1);
        OpenDepth(src, a);
        assert |s| >= |Open(src, a)| + 1;
        assert Open(src, n) == s[..|s| - 1];
      }
    }
  }

  /** The innermost open bracket `e` has stayed open since it was entered:
      the open brackets are the same as just after `e`, and the depth has not
      dropped below its level there. */
  lemma {:induction false} InnermostStaysOpen(src: seq<char>, n: nat)
    requires n <= |src| && |Open(src, n)| > 0
    ensures var e := Top(Open(src, n));
      && Open(src, n) == Open(src, e + 1)
      && forall k :: e + 1 <= k <= n ==> Net(src, 0, k) >= Net(src, 0, e + 1)
    decreases n, 1
  {
    var s := Open(src, n - 1);
    if src[n - 1] == '[' {
      assert Open(src, n) == s + [n - 1];
    } else if src[n - 1] == ']' {
      InnermostAfterClose(src, n);
    } else {
      assert Open(src, n) == s;
      InnermostStaysOpen(src, n - 1);
      assert Net(src, 0, n) == Net(src, 0, n - 1);
    }
  }

  /** The case of `InnermostStaysOpen` where the last character is a `]`:
      it closed the bracket `e'` that was innermost before it, and `e'` had
      itself been opened inside the one now innermost. */
  lemma {:induction false} InnermostAfterClose(src: seq<char>, n: nat)
    requires 0 < n <= |src| && src[n - 1] == ']' && |Open(src, n)| > 0
    ensures var e := Top(Open(src, n));
      && Open(src, n) == Open(src, e + 1)
      && forall k :: e + 1 <= k <= n ==> Net(src, 0, k) >= Net(src, 0, e + 1)
    decreases n, 0
  {
    var s := Open(src, n - 1);
    assert |s| > 1 && Open(src, n) == s[..|s| - 1];
    var e' := Top(s);
    InnermostStaysOpen(src, n - 1);
    assert src[e'] == '[' && e' < n - 1;
    assert Open(src, e' + 1) == Open(src, e') + [e'];
    assert Open(src, n) == Open(src, e');
    InnermostStaysOpen(src, e');
    DepthAcrossClosedLoop(src, Top(Open(src, n)), e', n);
  }

  /** Joins the two depth bounds of `InnermostAfterClose`: from `e + 1` up to
      the inner `[` at `e'`, and from just after `e'` up to the `]` at
      `n - 1` that closes it. */
  lemma DepthAcrossClosedLoop(src: seq<char>, e: nat, e': nat, n: nat)
    requires e < e' < n - 1 && n <= |src|
    requires src[e'] == '[' && src[n - 1] == ']'
    requires forall k :: e + 1 <= k <= e' ==> Net(src, 0, k) >= Net(src, 0, e + 1)
    requires forall k :: e' + 1 <= k <= n - 1 ==> Net(src, 0, k) >= Net(src, 0, e' + 1)
    ensures forall k :: e + 1 <= k <= n ==> Net(src, 0, k) >= Net(src, 0, e + 1)
  {
    assert Net(src, 0, e' + 1) == Net(src, 0, e') + 1;
    assert Net(src, 0, n) == Net(src, 0, n - 1) - 1;
  }

  /** Skipping a loop from its `[` to one past its `]` leaves the open
      brackets as they were. */
  lemma SkipLoopKeepsOpen(src: seq<char>, i: nat)
    requires Balanced(src)
    requires i < |src| && src[i] == '['
    ensures MatchRight(src, i).Some?
    ensures Open(src, MatchRight(src, i).value + 1) == Open(src, i)
  {
    BalancedHasMatch(src, i);
    var j := MatchRight(src, i).value;
    MatchRightIsLeastMatch(src, i);
    assert BalancedRange(src, i + 1, j);
    forall k | i + 1 <= k <= j
      ensures Net(src, 0, k) >= Net(src, 0, i + 1)
    {
      NetSplit(src, 0, i + 1, k);
    }
    assert NeverBelow(src, 0, j);
    OpenKeepsPrefix(src, i + 1, j);
    NetSplit(src, 0, i + 1, j);
    OpenDepth(src, j);
    OpenDepth(src, i + 1);
    assert Open(src, j) == Open(src, i + 1);
  }

  /** At a `]` of a balanced program some bracket is open, the innermost
      one `e` has stayed open since it was entered, and the text between
      them is balanced. */
  lemma InnermostBeforeClose(src: seq<char>, pc: nat)
    requires Balanced(src)
    requires pc < |src| && src[pc] == ']'
    ensures |Open(src, pc)| > 0
    ensures var e := Top(Open(src, pc));
      Open(src, e + 1) == Open(src, pc) && IsMatch(src, e, pc)
  {
    assert Net(src, 0, pc + 1) >= 0;
    assert NeverBelow(src, 0, pc);
    OpenDepth(src, pc);
    var e := Top(Open(src, pc));
    InnermostStaysOpen(src, pc);
    var a := e + 1;
    assert NeverBelow(src, 0, a);
    OpenDepth(src, a);
    forall k | a <= k <= pc
      ensures Net(src, a, k) >= 0
    {
      NetSplit(src, 0, a, k);
    }
    NetSplit(src, 0, a, pc);
  }

  /** At a `]` of a balanced program the innermost open bracket is the `[`
      this `]` closes: the entry `]` jumps back to is its own `[`. */
  lemma CloseFindsItsOpen(src: seq<char>, pc: nat)
    requires Balanced(src)
    requires pc < |src| && src[pc] == ']'
    ensures |Open(src, pc)| > 0
    ensures MatchRight(src, Top(Open(src, pc))) == Some(pc)
  {
    InnermostBeforeClose(src, pc);
    var e := Top(Open(src, pc));
    MatchRightIsLeastMatch(src, e);
    MatchUnique(src, e, MatchRight(src, e).value, pc);
  }

  /** At a `]` of a balanced program some bracket is open, and jumping
      back past the innermost one finds the same open brackets. */
  lemma OpenBeforeClose(src: seq<char>, pc: nat)
    requires Balanced(src)
    requires pc < |src| && src[pc] == ']'
    ensures |Open(src, pc)| > 0 && Open(src, Top(Open(src, pc)) + 1) == Open(src, pc)
  {
    InnermostBeforeClose(src, pc);
  }

  /** At a `[` on a zero cell whose loop is skipped to a point with the same
      open brackets, the decision keeps the stack equal to the open
      brackets. */
  lemma DispatchSkipKeepsOpen(src: seq<char>, pc: nat)
    requires pc < |src| && src[pc] == '['
    requires MatchRight(src, pc).Some? && Open(src, MatchRight(src, pc).value + 1) == Open(src, pc)
    ensures var c := Dispatch(src, pc, Open(src, pc), 0);
      && c.Continue? && c.pc <= |src| && c.stack == Open(src, c.pc)
  {
    var j := MatchRight(src, pc).value;
    assert Dispatch(src, pc, Open(src, pc), 0) == Continue(Stay, j + 1, Open(src, pc));
  }

  /** At a `[` that has a match, on a nonzero cell, the decision enters the
      loop and pushes the `[`, which is the open brackets one character
      on. */
  lemma DispatchEnterKeepsOpen(src: seq<char>, pc: nat, cell: Byte)
    requires pc < |src| && src[pc] == '[' && cell != 0 && MatchRight(src, pc).Some?
    ensures var c := Dispatch(src, pc, Open(src, pc), cell);
      && c.Continue? && c.pc <= |src| && c.stack == Open(src, c.pc)
  {
    var s := Open(src, pc);
    assert Dispatch(src, pc, s, cell) == Continue(Stay, pc + 1, Push(s, pc));
    OpenStep(src, pc);
  }

  /** At a `]` with a bracket open, where jumping back past the innermost
      one finds the same open brackets, the decision keeps the stack equal
      to the open brackets: back past its `[` on a nonzero cell, out of the
      loop otherwise. */
  lemma DispatchCloseKeepsOpen(src: seq<char>, pc: nat, cell: Byte)
    requires pc < |src| && src[pc] == ']'
    requires |Open(src, pc)| > 0 && Open(src, Top(Open(src, pc)) + 1) == Open(src, pc)
    ensures var c := Dispatch(src, pc, Open(src, pc), cell);
      && c.Continue? && c.pc <= |src| && c.stack == Open(src, c.pc)
  {
    OpenStep(src, pc);
  }

  /** At a character of a balanced program, the decision taken with the
      open brackets as the stack carries on, and its new stack is the open
      brackets at its new cursor position. */
  lemma DispatchKeepsOpen(src: seq<char>, pc: nat, cell: Byte)
    requires Balanced(src) && pc < |src|
    ensures var c := Dispatch(src, pc, Open(src, pc), cell);
      && c.Continue? && c.pc <= |src| && c.stack == Open(src, c.pc)
  {
    if src[pc] == '[' && cell == 0 {
      SkipLoopKeepsOpen(src, pc);
      DispatchSkipKeepsOpen(src, pc);
    } else if src[pc] == '[' {
      BalancedHasMatch(src, pc);
      DispatchEnterKeepsOpen(src, pc, cell);
    } else if src[pc] == ']' {
      OpenBeforeClose(src, pc);
      DispatchCloseKeepsOpen(src, pc, cell);
    } else {
      OpenStep(src, pc);
    }
  }

  /** One step of a balanced program keeps the jump stack equal to the open
      brackets at the cursor and never stops on an error. The step is taken
      on the flat machine, which makes the same decisions as the engine
      (`Reference.StepRefines`). */
  lemma StepKeepsOpen(fill: Fill, src: seq<char>, m: FlatMachine)
    requires Balanced(src) && m.pc <= |src|
    requires m.status.Running? && m.stack == Open(src, m.pc)
    ensures var r := FlatStep(fill, src, m);
      && r.pc <= |src| && r.stack == Open(src, r.pc)
      && (r.status.Running? || r.status.Finished?)
      && (r.status.Finished? ==> r.stack == [] && r.pc == |src|)
  {
    if m.pc == |src| {
      OpenDepth(src, |src|);
    } else {
      DispatchKeepsOpen(src, m.pc, Here(fill, m.tape));
    }
  }

  /** The stack is the open brackets at the cursor, as many as the nesting
      depth there, and execution has not stopped on an error; once finished,
      the cursor is at the end with nothing open. */
  ghost predicate Tracks(src: seq<char>, pc: nat, stack: Stack, status: Status)
    requires pc <= |src|
  {
    && stack == Open(src, pc)
    && |stack| == Net(src, 0, pc)
    && (status.Running? || status.Finished?)
    && (status.Finished? ==> stack == [] && pc == |src|)
  }

  lemma TracksFromOpen(src: seq<char>, m: FlatMachine)
    requires Balanced(src) && m.pc <= |src| && m.stack == Open(src, m.pc)
    requires m.status.Running? || m.status.Finished?
    requires m.status.Finished? ==> m.stack == [] && m.pc == |src|
    ensures Tracks(src, m.pc, m.stack, m.status)
  {
    assert NeverBelow(src, 0, m.pc);
    OpenDepth(src, m.pc);
  }

  /** Any number of steps of the flat machine on a balanced program keep
      `Tracks`. */
  lemma {:induction false} FlatRunKeepsOpen(fill: Fill, src: seq<char>, m: FlatMachine, fuel: nat)
    requires Balanced(src) && m.pc <= |src|
    requires m.status.Running? && m.stack == Open(src, m.pc)
    ensures var r := FlatRun(fill, src, m, fuel);
      r.pc <= |src| && Tracks(src, r.pc, r.stack, r.status)
    decreases fuel
  {
    if fuel > 0 {
      StepKeepsOpen(fill, src, m);
      var m' := FlatStep(fill, src, m);
      if m'.status.Running? {
        FlatRunKeepsOpen(fill, src, m', fuel - 1);
      } else {
        assert FlatRun(fill, src, m', fuel - 1) == m';
        TracksFromOpen(src, m');
      }
    } else {
      TracksFromOpen(src, m);
    }
  }

  /** Any number of steps of the engine on a balanced program: it never
      reaches a diagnostic or the crash, its jump stack is always the open
      brackets at the cursor, and it is empty when the program finishes. */
  lemma RunKeepsOpen(cfg: Config, src: seq<char>, m: Machine, fuel: nat)
    requires Balanced(src) && WfMachine(cfg, src, m)
    requires m.status.Running? && m.stack == Open(src, m.pc)
    ensures var r := Run(cfg, src, m, fuel);
      Tracks(src, r.pc, r.stack, r.status)
  {
    var fm := Lift(cfg, m);
    RunRefines(cfg, src, m, fm, fuel);
    FlatRunKeepsOpen(cfg.fill, src, fm, fuel);
  }

  /** `execute` on a line whose brackets pair up either finishes or is still
      running when the fuel runs out; it never reports a bracket error and
      never crashes. */
  lemma BalancedNeverFails(cfg: Config, buf: seq<char>, t: Tape, input: seq<Byte>, fuel: nat)
    requires Wf(cfg, t) && Balanced(Text(buf))
    ensures var r := Execute(cfg, Some(buf), t, input, fuel);
      r.status.Running? || r.status.Finished?
  {
    RunKeepsOpen(cfg, Text(buf), Start(t, input), fuel);
  }

  /** From the start of `execute` on a balanced line, whenever the engine
      is about to evaluate a `]`, the top of its jump stack is the `[` that
      this `]` closes, so jumping back repeats exactly that loop. */
  lemma TopIsMatch(cfg: Config, src: seq<char>, t: Tape, input: seq<Byte>, fuel: nat)
    requires Balanced(src) && Wf(cfg, t)
    ensures var r := Run(cfg, src, Start(t, input), fuel);
      r.status.Running? && r.pc < |src| && src[r.pc] == ']' ==>
        |r.stack| > 0 && MatchRight(src, Top(r.stack)) == Some(r.pc)
  {
    var r := Run(cfg, src, Start(t, input), fuel);
    RunKeepsOpen(cfg, src, Start(t, input), fuel);
    if r.status.Running? && r.pc < |src| && src[r.pc] == ']' {
      CloseFindsItsOpen(src, r.pc);
    }
  }
}
