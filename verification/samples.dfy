/** Whole `execute` calls on small lines, from the start-up tape or from
    any tape: ordinary output and echo, the error exits, and end of input
    as the engine meets them. */
module Samples {
  import opened Base
  import opened Setup
  import opened Chunked
  import opened Flat
  import opened Brackets
  import opened Engine
  import opened Reference

  /** A lone `]` on a zero cell, on the flat machine. */
  lemma LoneCloseFlat(f: FlatTape, fuel: nat)
    requires fuel > 0 && Here(Zeroed, f) == 0
    ensures FlatRun(Zeroed, "]", FlatMachine(f, 0, [], [], [], Running), fuel).status == Crashed(0)
  {
    var m1 := FlatStep(Zeroed, "]", FlatMachine(f, 0, [], [], [], Running));
    assert m1.status == Crashed(0);
    assert FlatRun(Zeroed, "]", m1, fuel - 1) == m1;
  }

  /** bfvm started afresh and given the line `]`: the cell is zero and the
      stack empty, so `pop_jump` is reached with nothing to pop and the
      process dies; it is not the "no matching '['" diagnostic. */
  lemma LoneCloseCrashes(pageSize: nat, junk: int -> Byte, fuel: nat)
    requires pageSize > 0 && fuel > 0
    ensures var cfg := ConfigFor(Bfvm, pageSize, junk);
      Execute(cfg, Some("]"), Init(cfg), [], fuel).status == Crashed(0)
  {
    var cfg := ConfigFor(Bfvm, pageSize, junk);
    FromStartUp(cfg, "]", [], fuel);
    assert Text("]") == "]";
    LoneCloseFlat(FlatStart(cfg), fuel);
  }

  /** A lone `[` on a zero cell, on the flat machine. */
  lemma LoneOpenFlat(f: FlatTape, fuel: nat)
    requires fuel > 0 && Here(Zeroed, f) == 0
    ensures FlatRun(Zeroed, "[", FlatMachine(f, 0, [], [], [], Running), fuel).status
         == Diagnosed(NoMatchingClose(0))
  {
    MatchRightIsLeastMatch("[", 0);
    var m1 := FlatStep(Zeroed, "[", FlatMachine(f, 0, [], [], [], Running));
    assert m1.status == Diagnosed(NoMatchingClose(0));
    assert FlatRun(Zeroed, "[", m1, fuel - 1) == m1;
  }

  /** bfvm started afresh and given the line `[`: the loop would be skipped,
      but there is no `]` to skip to, so the line ends with the "no matching
      ']'" diagnostic. */
  lemma LoneOpenDiagnosed(pageSize: nat, junk: int -> Byte, fuel: nat)
    requires pageSize > 0 && fuel > 0
    ensures var cfg := ConfigFor(Bfvm, pageSize, junk);
      Execute(cfg, Some("["), Init(cfg), [], fuel).status == Diagnosed(NoMatchingClose(0))
  {
    var cfg := ConfigFor(Bfvm, pageSize, junk);
    FromStartUp(cfg, "[", [], fuel);
    assert Text("[") == "[";
    LoneOpenFlat(FlatStart(cfg), fuel);
  }

  /** `,.` with no input left, on the flat machine. */
  lemma EchoAtEofFlat(fill: Fill, f: FlatTape, fuel: nat)
    requires fuel > 2
    ensures var r := FlatRun(fill, ",.", FlatMachine(f, 0, [], [], [], Running), fuel);
      r.output == [255] && r.status == Finished
  {
    var src := ",.";
    var m1 := FlatStep(fill, src, FlatMachine(f, 0, [], [], [], Running));
    assert Here(fill, m1.tape) == 255 && m1.pc == 1 && m1.output == [];
    var m2 := FlatStep(fill, src, m1);
    assert m2.output == [255] && m2.pc == 2;
    var m3 := FlatStep(fill, src, m2);
    assert m3 == m2.(status := Finished);
    assert FlatRun(fill, src, m3, fuel - 3) == m3;
    assert FlatRun(fill, src, m2, fuel - 2) == m3;
    assert FlatRun(fill, src, m1, fuel - 1) == m3;
  }

  /** Either program, any tape: `,.` at end of input echoes 255, the value
      `getchar`'s EOF leaves in a cell. */
  lemma EchoAtEof(cfg: Config, t: Tape, fuel: nat)
    requires Wf(cfg, t) && fuel > 2
    ensures var r := Execute(cfg, Some(",."), t, [], fuel);
      r.output == [255] && r.status == Finished
  {
    ExecuteRefines(cfg, ",.", t, Abstract(cfg, t), [], fuel);
    assert Text(",.") == ",.";
    EchoAtEofFlat(cfg.fill, Abstract(cfg, t), fuel);
  }

  /** `+++.` from a zero cell, on the flat machine. */
  lemma CountToThreeFlat(f: FlatTape, fuel: nat)
    requires fuel > 4 && Here(Zeroed, f) == 0
    ensures var r := FlatRun(Zeroed, "+++.", FlatMachine(f, 0, [], [], [], Running), fuel);
      r.output == [3] && r.status == Finished
  {
    var src := "+++.";
    var m1 := FlatStep(Zeroed, src, FlatMachine(f, 0, [], [], [], Running));
    assert Here(Zeroed, m1.tape) == 1 && m1.pc == 1 && m1.output == [];
    var m2 := FlatStep(Zeroed, src, m1);
    assert Here(Zeroed, m2.tape) == 2 && m2.pc == 2 && m2.output == [];
    var m3 := FlatStep(Zeroed, src, m2);
    assert Here(Zeroed, m3.tape) == 3 && m3.pc == 3 && m3.output == [];
    var m4 := FlatStep(Zeroed, src, m3);
    assert m4.output == [3] && m4.pc == 4 && m4.status == Running;
    var m5 := FlatStep(Zeroed, src, m4);
    assert m5 == m4.(status := Finished);
    assert FlatRun(Zeroed, src, m5, fuel - 5) == m5;
    assert FlatRun(Zeroed, src, m4, fuel - 4) == m5;
    assert FlatRun(Zeroed, src, m3, fuel - 3) == m5;
    assert FlatRun(Zeroed, src, m2, fuel - 2) == m5;
    assert FlatRun(Zeroed, src, m1, fuel - 1) == m5;
  }

  /** bfvm started afresh and given `+++.`: the zero-filled start-up cell
      counts up to 3, which is written out, and the line finishes. */
  lemma CountToThree(pageSize: nat, junk: int -> Byte, fuel: nat)
    requires pageSize > 0 && fuel > 4
    ensures var cfg := ConfigFor(Bfvm, pageSize, junk);
      var r := Execute(cfg, Some("+++."), Init(cfg), [], fuel);
      r.output == [3] && r.status == Finished
  {
    var cfg := ConfigFor(Bfvm, pageSize, junk);
    FromStartUp(cfg, "+++.", [], fuel);
    assert Text("+++.") == "+++.";
    CountToThreeFlat(FlatStart(cfg), fuel);
  }

  /** `,.` with input left, on the flat machine. */
  lemma EchoFlat(fill: Fill, f: FlatTape, b: Byte, rest: seq<Byte>, fuel: nat)
    requires fuel > 2
    ensures var r := FlatRun(fill, ",.", FlatMachine(f, 0, [], [b] + rest, [], Running), fuel);
      r.output == [b] && r.input == rest && r.status == Finished
  {
    var src := ",.";
    var m1 := FlatStep(fill, src, FlatMachine(f, 0, [], [b] + rest, [], Running));
    assert Here(fill, m1.tape) == b && m1.pc == 1 && m1.output == [] && m1.input == rest;
    var m2 := FlatStep(fill, src, m1);
    assert m2.output == [b] && m2.pc == 2 && m2.input == rest;
    var m3 := FlatStep(fill, src, m2);
    assert m3 == m2.(status := Finished);
    assert FlatRun(fill, src, m3, fuel - 3) == m3;
    assert FlatRun(fill, src, m2, fuel - 2) == m3;
    assert FlatRun(fill, src, m1, fuel - 1) == m3;
  }

  /** Either program, any tape: `,.` with input left copies exactly the next
      input byte to the output and consumes it. */
  lemma Echo(cfg: Config, t: Tape, b: Byte, rest: seq<Byte>, fuel: nat)
    requires Wf(cfg, t) && fuel > 2
    ensures var r := Execute(cfg, Some(",."), t, [b] + rest, fuel);
      r.output == [b] && r.input == rest && r.status == Finished
  {
    ExecuteRefines(cfg, ",.", t, Abstract(cfg, t), [b] + rest, fuel);
    assert Text(",.") == ",.";
    EchoFlat(cfg.fill, Abstract(cfg, t), b, rest, fuel);
  }
}
