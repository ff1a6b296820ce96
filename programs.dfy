/** Whole texts run end to end: the ops built, the optimiser's marks and
    warnings, and the bytes written. */
module Programs {
  import opened Base
  import opened Filter
  import opened Ops
  import opened Runs
  import opened Program
  import opened Optimizer
  import opened Engine
  import opened Interpreter
  import opened Scenarios

  // ---------------------------------------------------------------------
  // Eight times eight.

  /** A loop that adds 8 to the next cell 8 times, then writes that cell. */
  const EightByEight: seq<char> := "++++++++[>++++++++<-]>."

  /** The ops `bf_int` builds for `EightByEight`. */
  const PlusEight: Op := Op('+', 0, 0, [8], 1, 0, 0)
  const OpenLoop: Op := Op('[', 0, 0, [-1, 8], 2, 2, 0)
  const CloseLoop: Op := Op(']', 1, 0, [0, 0], 0, 1, 0)
  const Dot: Op := Op('.', 0, 0, [], 0, 0, 0)
  const EightByEightOps: seq<Op> := [PlusEight, OpenLoop, CloseLoop, Dot]

  /** The same ops once the optimiser has marked the loop. */
  const MarkedOps: seq<Op> := [PlusEight, OpenLoop.(linear := 1), CloseLoop, Dot]

  /** The brackets are linked to each other, the optimiser marks the `[`
      with 1 and warns about nothing, and 64 is written (`MarkedPass` shows
      the marked loop's single pass is eight naive passes of its body). */
  lemma EightByEightWrites64(eof: int, fuel: nat)
    requires fuel >= 4
    ensures Build(EightByEight) == Ok(EightByEightOps)
    ensures WellFormed(EightByEightOps)
    ensures Optimized(EightByEightOps) == MarkedOps && Warnings(EightByEightOps, 4) == []
    ensures Interpret(EightByEight, [], eof, fuel) == Ok(Report([], Halted, [64]))
  {
    BuildEightByEightText();
    MarkEightByEight(EightByEightOps);
    InterpretEightByEight(EightByEight, eof, fuel);
  }

  /** `Interpret` puts the build, the marks and the run together. */
  lemma InterpretEightByEight(text: seq<char>, eof: int, fuel: nat)
    requires fuel >= 4 && Build(text) == Ok(EightByEightOps)
    ensures Interpret(text, [], eof, fuel) == Ok(Report([], Halted, [64]))
  {
    MarkEightByEight(EightByEightOps);
    RunEightByEight(MarkedOps, eof, fuel);
    var o := Engine.Run(MarkedOps, Engine.Start([]), eof, fuel);
    assert o == Outcome(Halted, o.m);
  }

  /** The characters of `EightByEight`, as the build reads them. */
  predicate EightByEightShape(text: seq<char>)
  {
    && |text| == 23 && AllCommands(text)
    && text[..8] == seq(8, _ => '+') && text[8] == '['
    && text[9..20] == ">++++++++<-" && text[20] == ']' && text[21] == '>' && text[22] == '.'
  }

  lemma EightByEightShaped()
    ensures EightByEightShape(EightByEight)
  {
  }

  lemma BuildEightByEightText()
    ensures Build(EightByEight) == Ok(EightByEightOps)
  {
    EightByEightShaped();
    BuildEightByEight(EightByEight);
  }

  lemma BuildEightByEight(text: seq<char>)
    requires EightByEightShape(text)
    ensures Build(text) == Ok(EightByEightOps)
  {
    var open := OpenLoop.(opInd := 0);
    var ops1, ops2 := [PlusEight], [PlusEight, open];
    assert text[0] == text[..8][0];
    BuildStart(text);
    assert BuildFrom([], Some('+'), text[1..]) == BuildFrom(ops1, Some('['), text[9..]) by {
      HeadRun(text);
    }
    assert BuildFrom(ops1, Some('['), text[9..]) == BuildFrom(ops2, Some(']'), text[21..]) by {
      OpenRun(text);
    }
    assert BuildFrom(ops2, Some(']'), text[21..]) == Ok(EightByEightOps) by {
      CloseRun(text);
    }
  }

  /** The leading `++++++++` becomes the first op, and `[` is read next. */
  lemma HeadRun(text: seq<char>)
    requires |text| == 23 && AllCommands(text) && text[..8] == seq(8, _ => '+') && text[8] == '['
    ensures AllCommands(text[1..]) && AllCommands(text[9..])
    ensures BuildFrom([], Some('+'), text[1..]) == BuildFrom([PlusEight], Some('['), text[9..])
  {
    var run := text[..8];
    assert ['+'] + text[1..] == run + ([text[8]] + text[9..]);
    assert run == seq(8, _ => '+');
    SplitRunOf('+', text[1..], run, Some('['), text[9..]);
    PlusRun(8, run);
    FirstRun('+', text[1..], run, Some('['), text[9..], Run([8], 1, 0, 0));
  }

  /** Eight `+` add 8 to the entry cell and leave the cursor in place. */
  /** The `[` takes the loop body as its run, and `]` is read next. */
  lemma OpenRun(text: seq<char>)
    requires |text| == 23 && AllCommands(text) && text[9..20] == ">++++++++<-" && text[20] == ']'
    ensures AllCommands(text[9..]) && AllCommands(text[21..])
    ensures BuildFrom([PlusEight], Some('['), text[9..])
         == BuildFrom([PlusEight, OpenLoop.(opInd := 0)], Some(']'), text[21..])
  {
    var body := text[9..20];
    var open := OpenLoop.(opInd := 0);
    assert text[9..] == body + ([text[20]] + text[21..]);
    SplitRunOf('[', text[9..], body, Some(']'), text[21..]);
    LoopBodyCoalesce(body);
    assert AppendOp([PlusEight], '[') == [PlusEight, ZeroOp.(ch := '[')];
    BuildFromRun([PlusEight], '[', text[9..], [PlusEight, ZeroOp.(ch := '[')], open, Some(']'), text[21..]);
    assert [PlusEight, ZeroOp.(ch := '[')][1 := open] == [PlusEight, open];
  }

  /** The loop body `>++++++++<-` adds 8 to the next cell and takes 1 from
      the counter; nothing is trimmed. */
  lemma LoopBodyCoalesce(body: seq<char>)
    requires body == ">++++++++<-"
    ensures Coalesce(body) == Run([-1, 8], 2, 0, 0)
  {
    var right := body[..1];
    var eight := body[..9];
    FoldSnoc([], '>');
    assert [] + ['>'] == right;
    assert Fold(right) == Window([0, 0], 1, 0);
    FoldPluses(right, 8);
    assert eight == right + seq(8, _ => '+');
    assert Fold(eight) == Window([0, 8], 1, 0);
    FoldStep(eight, '<', Window([0, 8], 1, 0), Window([0, 8], 0, 0));
    FoldStep(eight + ['<'], '-', Window([0, 8], 0, 0), Window([-1, 8], 0, 0));
    assert eight + ['<'] + ['-'] == body;
    CoalesceUntrimmed(body, Window([-1, 8], 0, 0));
  }

  /** The `]` finds the `[` before it and takes the run `>`; `.` ends the
      program. */
  lemma CloseRun(text: seq<char>)
    requires |text| == 23 && AllCommands(text) && text[21] == '>' && text[22] == '.'
    ensures AllCommands(text[21..])
    ensures BuildFrom([PlusEight, OpenLoop.(opInd := 0)], Some(']'), text[21..]) == Ok(EightByEightOps)
  {
    var open := OpenLoop.(opInd := 0);
    var ops1 := AppendOp([PlusEight, open], ']');
    assert ops1 == [PlusEight, open, ZeroOp.(ch := ']')];
    assert ops1[..|ops1| - 1] == [PlusEight, open];
    var s := Chars([PlusEight, open]);
    assert s == ['+', '['];
    assert Scan(s, 1) == Some(1);
    LinkAt(ops1, 1);
    var linked := [PlusEight, OpenLoop, Op(']', 0, 0, [], 0, 1, 0)];
    assert ops1[1 := ops1[1].(opInd := 2)][2 := ops1[2].(opInd := 1)] == linked;
    assert Link(ops1) == Ok(linked);
    var right := text[21..22];
    assert text[21..] == right + ([text[22]] + []);
    SplitRunOf(']', text[21..], right, Some('.'), []);
    RightCoalesce(right);
    BuildFromRun([PlusEight, open], ']', text[21..], linked, CloseLoop, Some('.'), []);
    DotAppend(linked[2 := CloseLoop]);
    assert linked[2 := CloseLoop] + [Dot] == EightByEightOps;
  }

  /** A lone `>` leaves no delta and moves the cursor one cell right. */
  lemma RightCoalesce(right: seq<char>)
    requires right == ">"
    ensures Coalesce(right) == Run([0, 0], 0, 0, 1)
  {
    FoldSnoc([], '>');
    assert [] + ['>'] == right;
    assert Fold(right) == Window([0, 0], 1, 0);
    assert TrimTail([0, 0], 2) == 0;
  }

  /** Only the `[` is a candidate, and its pass takes 1 off the counter. */
  lemma MarkEightByEight(ops: seq<Op>)
    requires ops == EightByEightOps
    ensures WellFormed(ops) && Optimized(ops) == MarkedOps && Warnings(ops, 4) == []
  {
    assert OpWellFormed(ops[0], 4) && OpWellFormed(ops[1], 4);
    assert OpWellFormed(ops[2], 4) && OpWellFormed(ops[3], 4);
    var opt := Optimized(ops);
    assert Candidate(ops[1], 1) && PassDecrement(ops[1]) == 1;
    assert !Candidate(ops[0], 0) && !Candidate(ops[2], 2) && !Candidate(ops[3], 3);
    assert opt[0] == ops[0] && opt[1] == OpenLoop.(linear := 1) && opt[2] == ops[2] && opt[3] == ops[3];
    assert opt == MarkedOps;
    NoWarnings(ops);
  }

  /** None of the four ops draws a warning. */
  lemma NoWarnings(ops: seq<Op>)
    requires ops == EightByEightOps && WellFormed(ops)
    ensures Warnings(ops, 4) == []
  {
    assert !Warns(ops[0], 0) && !Warns(ops[1], 1) && !Warns(ops[2], 2) && !Warns(ops[3], 3);
    assert Warnings(ops, 1) == [];
    assert Warnings(ops, 2) == [];
    assert Warnings(ops, 3) == [];
  }

  /** The marked `[` on a counter of 8 applies its body once, scaled by
      8 / 1, which is what eight naive passes of the body do. */
  lemma MarkedPass(ops: seq<Op>, t: Tape)
    requires ops == MarkedOps && t == Tape(Engine.Start([]).tape.mem[0 := 8], 0)
    ensures ApplyRun(ops[1], t) == Some(Tape(Passes(t.mem, 0, [-1, 8], 2, 8), 0))
    ensures ApplyRun(ops[1], t) == Some(Tape(Engine.Start([]).tape.mem[0 := 0][1 := 64], 0))
  {
    LinearIsPasses(ops[1], t, 0, 8);
    PassesScale(t.mem, 0, [-1, 8], 2, 8);
    var r := AddRun(t.mem, 0, [-1, 8], 2, 8);
    assert r == Engine.Start([]).tape.mem[0 := 0][1 := 64] by {
      assert forall j :: 0 <= j < |r| ==> r[j] == t.mem[j] + 8 * Delta([-1, 8], 2, 0, j);
    }
  }

  /** The marked program, run from a fresh tape, halts having written 64. */
  lemma RunEightByEight(ops: seq<Op>, eof: int, fuel: nat)
    requires ops == MarkedOps && fuel >= 4
    ensures Runnable(ops) && Inside(ops, Engine.Start([]))
    ensures Engine.Run(ops, Engine.Start([]), eof, fuel).status == Halted
    ensures Engine.Run(ops, Engine.Start([]), eof, fuel).m.output == [64]
  {
    var mem0 := Engine.Start([]).tape.mem;
    var mem2 := mem0[0 := 0][1 := 64];
    var m0 := Engine.Start([]);
    var m1 := Machine(1, Tape(mem0[0 := 8], 0), [], []);
    var m2 := Machine(2, Tape(mem2, 0), [], []);
    var m3 := Machine(3, Tape(mem2, 1), [], []);
    var m4 := Machine(4, Tape(mem2, 1), [], [64]);
    StepAdd(ops, m0, eof);
    StepLoop(ops, m1, eof);
    StepClose(ops, m2, eof);
    StepDot(ops, m3, eof);
    assert Engine.Run(ops, m0, eof, fuel) == Engine.Run(ops, m1, eof, fuel - 1) by {
      RunUnfold(ops, m0, eof, fuel);
    }
    assert Engine.Run(ops, m1, eof, fuel - 1) == Engine.Run(ops, m2, eof, fuel - 2) by {
      RunUnfold(ops, m1, eof, fuel - 1);
    }
    assert Engine.Run(ops, m2, eof, fuel - 2) == Engine.Run(ops, m3, eof, fuel - 3) by {
      assert m2.(pc := 3, tape := m2.tape.(ind := 1)) == m3;
      RunUnfold(ops, m2, eof, fuel - 2);
    }
    assert Engine.Run(ops, m3, eof, fuel - 3) == Engine.Run(ops, m4, eof, fuel - 4) by {
      assert m3.(pc := 4, output := [64]) == m4;
      RunUnfold(ops, m3, eof, fuel - 3);
    }
    assert Engine.Run(ops, m4, eof, fuel - 4) == Outcome(Halted, m4);
  }

  lemma StepAdd(ops: seq<Op>, m0: Machine, eof: int)
    requires ops == MarkedOps && m0 == Engine.Start([])
    ensures Runnable(ops) && Inside(ops, m0)
    ensures Step(ops, m0, eof) == Some(Machine(1, Tape(m0.tape.mem[0 := 8], 0), [], []))
  {
    assert Grow(m0.tape.mem, 1) == m0.tape.mem;
    assert Deposit(ops[0], m0.tape) == m0.tape.mem[0 := 8];
  }

  lemma StepLoop(ops: seq<Op>, m1: Machine, eof: int)
    requires ops == MarkedOps && m1 == Machine(1, Tape(Engine.Start([]).tape.mem[0 := 8], 0), [], [])
    ensures Runnable(ops) && Inside(ops, m1)
    ensures Step(ops, m1, eof) == Some(Machine(2, Tape(Engine.Start([]).tape.mem[0 := 0][1 := 64], 0), [], []))
  {
    MarkedPass(ops, m1.tape);
    BracketControl(ops, m1, eof);
  }

  lemma StepClose(ops: seq<Op>, m2: Machine, eof: int)
    requires ops == MarkedOps && m2 == Machine(2, Tape(Engine.Start([]).tape.mem[0 := 0][1 := 64], 0), [], [])
    ensures Runnable(ops) && Inside(ops, m2)
    ensures Step(ops, m2, eof) == Some(m2.(pc := 3, tape := m2.tape.(ind := 1)))
  {
    BracketControl(ops, m2, eof);
    assert Grow(m2.tape.mem, 2) == m2.tape.mem;
    assert ApplyRun(ops[2], m2.tape) == Some(m2.tape.(ind := 1));
  }

  lemma StepDot(ops: seq<Op>, m3: Machine, eof: int)
    requires ops == MarkedOps && m3 == Machine(3, Tape(Engine.Start([]).tape.mem[0 := 0][1 := 64], 1), [], [])
    ensures Runnable(ops) && Inside(ops, m3)
    ensures Step(ops, m3, eof) == Some(m3.(pc := 4, output := [64]))
  {
    IoKeepsCursor(ops, m3, eof);
    assert m3.tape.mem[1] == 64 && LowByte(64) == 64;
    assert [] + [64] == [64];
  }

  // ---------------------------------------------------------------------
  // A NUL character inside a loop.

  /** A loop with a NUL byte in its body, and the same loop without it. */
  const NulLoop: seq<char> := "[+\0]"
  const PlusLoop: seq<char> := "[+]"

  /** The ops built for `[+\0]`: the NUL becomes an op of its own between
      the brackets, which it links. */
  const NulLoopOps: seq<Op> := [Op('[', 0, 0, [1], 1, 2, 0), ZeroOp, Op(']', 0, 0, [0], 0, 0, 0)]

  /** The ops built for `[+]`. */
  const PlusLoopOps: seq<Op> := [Op('[', 0, 0, [1], 1, 1, 0), Op(']', 0, 0, [0], 0, 0, 0)]

  /** `strchr` finds the NUL that ends its string, so a NUL byte in the
      source is kept as an op; it sits between the `[` and its `]`, the `[`
      stops being a candidate, and the endless loop `[+]` is no longer
      warned about. */
  lemma NulSplitsLoop()
    ensures Build(NulLoop) == Ok(NulLoopOps) && Warnings(NulLoopOps, 3) == []
    ensures Build(PlusLoop) == Ok(PlusLoopOps) && Warnings(PlusLoopOps, 2) == [0]
  {
    BuildNulLoop(NulLoop);
    BuildPlusLoop(PlusLoop);
    var nul, plus := NulLoopOps, PlusLoopOps;
    assert WellFormed(nul) by {
      assert OpWellFormed(nul[0], 3) && OpWellFormed(nul[1], 3) && OpWellFormed(nul[2], 3);
    }
    assert Warnings(nul, 3) == [] by {
      assert !Warns(nul[0], 0) && !Warns(nul[1], 1) && !Warns(nul[2], 2);
      assert Warnings(nul, 1) == [] && Warnings(nul, 2) == [];
    }
    assert WellFormed(plus) by {
      assert OpWellFormed(plus[0], 2) && OpWellFormed(plus[1], 2);
    }
    assert Warnings(plus, 2) == [0] by {
      assert Warns(plus[0], 0) && !Warns(plus[1], 1);
      assert Warnings(plus, 1) == [0];
    }
  }

  lemma BuildNulLoop(text: seq<char>)
    requires |text| == 4 && text[0] == '[' && text[1] == '+' && text[2] == '\0' && text[3] == ']'
    ensures Build(text) == Ok(NulLoopOps)
  {
    var open := Op('[', 0, 0, [1], 1, 0, 0);
    var head, both, tail := [open], [open, ZeroOp], text[4..];
    assert AllCommands(text);
    BuildStart(text);
    OpenBeforeNul(text, head);
    assert BuildFrom(head, Some('\0'), text[3..]) == BuildFrom(both, Some(']'), tail) by {
      assert text[3..] == [']'] + tail && tail == [];
      BuildFromIo(head, '\0', text[3..], Some(']'), tail);
      assert AppendOp(head, '\0') == both;
    }
    assert BuildFrom(both, Some(']'), tail) == Ok(NulLoopOps) by {
      CloseAfterNul(open, both, tail);
    }
  }

  /** The `[` takes the run `+`, which the NUL ends. */
  lemma OpenBeforeNul(text: seq<char>, head: seq<Op>)
    requires |text| == 4 && text[0] == '[' && text[1] == '+' && text[2] == '\0' && text[3] == ']'
    requires head == [Op('[', 0, 0, [1], 1, 0, 0)]
    ensures AllCommands(text[1..]) && AllCommands(text[3..])
    ensures BuildFrom([], Some('['), text[1..]) == BuildFrom(head, Some('\0'), text[3..])
  {
    assert text[1..] == text[1..2] + ([text[2]] + text[3..]);
    assert text[1..2] == "+";
    SplitRunOf('[', text[1..], "+", Some('\0'), text[3..]);
    PlusCoalesce();
    FirstRun('[', text[1..], "+", Some('\0'), text[3..], Run([1], 1, 0, 0));
  }

  /** The `]` scans back over the NUL to the `[`. */
  lemma CloseAfterNul(open: Op, ops: seq<Op>, tail: seq<char>)
    requires open == Op('[', 0, 0, [1], 1, 0, 0) && ops == [open, ZeroOp] && tail == []
    ensures BuildFrom(ops, Some(']'), tail) == Ok(NulLoopOps)
  {
    var ops1 := AppendOp([open, ZeroOp], ']');
    assert ops1 == [open, ZeroOp, ZeroOp.(ch := ']')];
    assert ops1[..|ops1| - 1] == [open, ZeroOp];
    var s := Chars([open, ZeroOp]);
    assert s == ['[', '\0'];
    assert Scan(s, 1) == Some(0) by {
      assert s[..1] == ['['];
    }
    LinkAt(ops1, 0);
    var linked := [open.(opInd := 2), ZeroOp, ZeroOp.(ch := ']')];
    assert ops1[0 := ops1[0].(opInd := 2)][2 := ops1[2].(opInd := 0)] == linked;
    SplitRunOf(']', [], [], None, []);
    CoalesceEmpty();
    BuildFromRun([open, ZeroOp], ']', [], linked, Op(']', 0, 0, [0], 0, 0, 0), None, []);
    assert linked[2 := Op(']', 0, 0, [0], 0, 0, 0)] == NulLoopOps;
  }

  lemma BuildPlusLoop(text: seq<char>)
    requires |text| == 3 && text[0] == '[' && text[1] == '+' && text[2] == ']'
    ensures Build(text) == Ok(PlusLoopOps)
  {
    var open := Op('[', 0, 0, [1], 1, 0, 0);
    var head, tail := [open], text[3..];
    assert AllCommands(text);
    BuildStart(text);
    OpenBeforeClose(text, head);
    assert BuildFrom(head, Some(']'), tail) == Ok(PlusLoopOps) by {
      CloseAfterPlus(open, head, tail);
    }
  }

  /** The `[` takes the run `+`, which the `]` ends. */
  lemma OpenBeforeClose(text: seq<char>, head: seq<Op>)
    requires |text| == 3 && text[0] == '[' && text[1] == '+' && text[2] == ']'
    requires head == [Op('[', 0, 0, [1], 1, 0, 0)]
    ensures AllCommands(text[1..]) && AllCommands(text[3..])
    ensures BuildFrom([], Some('['), text[1..]) == BuildFrom(head, Some(']'), text[3..])
  {
    assert AllCommands(text);
    assert text[1..] == text[1..2] + ([text[2]] + text[3..]) && text[3..] == [];
    assert text[1..2] == "+";
    SplitRunOf('[', text[1..], "+", Some(']'), text[3..]);
    PlusCoalesce();
    FirstRun('[', text[1..], "+", Some(']'), text[3..], Run([1], 1, 0, 0));
  }

  /** The `]` scans back to the `[` right before it. */
  lemma CloseAfterPlus(open: Op, ops: seq<Op>, tail: seq<char>)
    requires open == Op('[', 0, 0, [1], 1, 0, 0) && ops == [open] && tail == []
    ensures BuildFrom(ops, Some(']'), tail) == Ok(PlusLoopOps)
  {
    var ops1 := AppendOp([open], ']');
    assert ops1 == [open, ZeroOp.(ch := ']')];
    assert ops1[..|ops1| - 1] == [open];
    assert Scan(Chars([open]), 1) == Some(0);
    LinkAt(ops1, 0);
    var linked := [open.(opInd := 1), ZeroOp.(ch := ']')];
    assert ops1[0 := ops1[0].(opInd := 1)][1 := ops1[1].(opInd := 0)] == linked;
    SplitRunOf(']', [], [], None, []);
    CoalesceEmpty();
    BuildFromRun([open], ']', [], linked, Op(']', 0, 0, [0], 0, 0, 0), None, []);
    assert linked[1 := Op(']', 0, 0, [0], 0, 0, 0)] == PlusLoopOps;
  }
}
