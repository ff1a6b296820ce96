/** Small programs whose build or run shows an edge of `bf_int`'s
    behaviour. */
module Scenarios {
  import opened Base
  import opened Filter
  import opened Ops
  import opened Runs
  import opened Program
  import opened Optimizer
  import opened Engine
  import opened Interpreter

  /** A `[` with no partner is built without complaint: its link keeps the
      0 the zero-fill gave it. */
  lemma UnmatchedOpenAccepted()
    ensures Build("[") == Ok([Op('[', 0, 0, [0], 0, 0, 0)])
  {
    CommandsCons('[', []);
    assert ['['] + [] == "[";
    assert First("[") == Some('[') && Rest("[") == [];
    SplitRunOf('[', [], [], None, []);
    CoalesceEmpty();
    FirstRun('[', [], [], None, [], Run([0], 0, 0, 0));
  }

  lemma CoalesceEmpty()
    ensures Coalesce([]) == Run([0], 0, 0, 0)
  {
    assert TrimTail([0], 1) == 0;
  }

  /** A `]` with no partner stops the build. */
  lemma UnmatchedCloseRejected()
    ensures Build("+]") == Err(Unbalanced)
  {
    CommandsCons('+', "]");
    CommandsCons(']', []);
    assert ['+'] + ([']'] + []) == "+]";
    assert First("+]") == Some('+') && Rest("+]") == "]";
    SplitRunOf('+', "]", "+", Some(']'), []);
    PlusCoalesce();
    FirstRun('+', "]", "+", Some(']'), [], Run([1], 1, 0, 0));
    CloseUnlinked(Op('+', 0, 0, [1], 1, 0, 0));
  }

  lemma CloseUnlinked(op: Op)
    requires op.ch == '+'
    ensures BuildFrom([op], Some(']'), []) == Err(Unbalanced)
  {
    var ops1 := AppendOp([op], ']');
    assert Chars(ops1[..1]) == "+";
    assert Scan("+", 1) == None by {
      assert "+"[..0] == [];
    }
    assert Link(ops1) == Err(Unbalanced);
  }

  /** The optimiser reads the entry cell of a candidate loop's buffer
      without checking it against `size`: for `[<-<>>]` trimming leaves a
      stale copy of the cell at index 1, so the loop is marked with a pass
      decrement of 1 although its body never changes the counter cell. */
  lemma StaleEntryRead()
    ensures var r := Coalesce("<-<>>");
            && r == Run([-1, -1, 0], 1, -1, 0)
            && Delta(r.d, r.size, r.offset, 0) == 0
            && Net("<-<>>", 0) == 0
            && Linear(Op('[', r.shift, r.offset, r.d, r.size, 1, 0), 0) == 1
  {
    StaleFold();
    assert TrimTail([0, -1, 0], 3) == 2;
    assert DropFirst(Span([0, -1, 0], 2, -2)) == Span([-1, -1, 0], 1, -1);
    CoalesceMeaning("<-<>>", 0);
  }

  lemma StaleFold()
    ensures Fold("<-<>>") == Window([0, -1, 0], 2, -2)
  {
    FoldStep([], '<', Initial, Window([0, 0], 0, -1));
    assert [] + ['<'] == "<";
    FoldStep("<", '-', Window([0, 0], 0, -1), Window([-1, 0], 0, -1));
    assert "<" + ['-'] == "<-";
    FoldStep("<-", '<', Window([-1, 0], 0, -1), Window([0, -1, 0], 0, -2));
    assert "<-" + ['<'] == "<-<";
    FoldStep("<-<", '>', Window([0, -1, 0], 0, -2), Window([0, -1, 0], 1, -2));
    assert "<-<" + ['>'] == "<-<>";
    FoldStep("<-<>", '>', Window([0, -1, 0], 1, -2), Window([0, -1, 0], 2, -2));
    assert "<-<>" + ['>'] == "<-<>>";
  }

  /** A run that reaches below the first cell faults before changing
      anything. */
  lemma BelowTapeFaults(eof: int, fuel: nat)
    requires fuel > 0
    ensures Interpret("<+", [], eof, fuel) == Ok(Report([], Faulted, []))
  {
    var op := Op('<', -1, -1, [1, 0], 1, 0, 0);
    BuildBelow("<+");
    BelowRuns(eof, fuel);
    InterpretOf("<+", [op], [], eof, fuel, Outcome(Faulted, Engine.Start([])));
  }

  lemma BelowRuns(eof: int, fuel: nat)
    requires fuel > 0
    ensures var ops := [Op('<', -1, -1, [1, 0], 1, 0, 0)];
            Runnable(ops) && Engine.Run(ops, Engine.Start([]), eof, fuel) == Outcome(Faulted, Engine.Start([]))
  {
    var ops := [Op('<', -1, -1, [1, 0], 1, 0, 0)];
    RunUnfold(ops, Engine.Start([]), eof, fuel);
    assert Step(ops, Engine.Start([]), eof) == None;
  }

  lemma BuildBelow(text: seq<char>)
    requires |text| == 2 && text[0] == '<' && text[1] == '+'
    ensures Build(text) == Ok([Op('<', -1, -1, [1, 0], 1, 0, 0)])
  {
    var rest, tail := text[1..], text[2..];
    assert AllCommands(text) && tail == [];
    BuildStart(text);
    assert ['<'] + rest == text + tail;
    SplitRunOf('<', rest, text, None, tail);
    BelowCoalesce(text);
    FirstRun('<', rest, text, None, tail, Run([1, 0], 1, -1, -1));
  }

  /** `.` writes the cursor cell's low byte. */
  lemma OutputIsLowByte(eof: int, fuel: nat)
    requires fuel >= 2
    ensures Interpret("-.", [], eof, fuel) == Ok(Report([], Halted, [255]))
  {
    var ops := [Op('-', 0, 0, [-1], 1, 0, 0), Op('.', 0, 0, [], 0, 0, 0)];
    BuildMinusDot();
    MinusDotRuns(eof, fuel);
    InterpretOf("-.", ops, [], eof, fuel, Outcome(Halted, Machine(2, Tape(Engine.Start([]).tape.mem[0 := -1], 0), [], [255])));
  }

  /** A program without `[` gets no mark and no warning. */
  lemma NothingToMark(ops: seq<Op>)
    requires WellFormed(ops)
    requires forall k :: 0 <= k < |ops| ==> ops[k].ch != '['
    ensures Optimized(ops) == ops && Warnings(ops, |ops|) == []
  {
    assert forall k :: 0 <= k < |ops| ==> Optimized(ops)[k] == ops[k];
    WarningsNone(ops, |ops|);
  }

  lemma {:induction false} WarningsNone(ops: seq<Op>, n: nat)
    requires WellFormed(ops) && n <= |ops|
    requires forall k :: 0 <= k < |ops| ==> ops[k].ch != '['
    ensures Warnings(ops, n) == []
  {
    if n > 0 {
      WarningsNone(ops, n - 1);
    }
  }

  /** `Interpret` on a text that builds a program without loops: no
      warning, and the outcome of running the ops unchanged. */
  lemma InterpretOf(src: seq<char>, ops: seq<Op>, input: seq<Byte>, eof: int, fuel: nat, o: Outcome)
    requires Build(src) == Ok(ops)
    requires forall k :: 0 <= k < |ops| ==> ops[k].ch != '['
    requires Runnable(ops) && Engine.Run(ops, Engine.Start(input), eof, fuel) == o
    ensures Interpret(src, input, eof, fuel) == Ok(Report([], o.status, o.m.output))
  {
    NothingToMark(ops);
  }

  lemma MinusDotRuns(eof: int, fuel: nat)
    requires fuel >= 2
    ensures var ops := [Op('-', 0, 0, [-1], 1, 0, 0), Op('.', 0, 0, [], 0, 0, 0)];
            Runnable(ops) && Engine.Run(ops, Engine.Start([]), eof, fuel) == Outcome(Halted, Machine(2, Tape(Engine.Start([]).tape.mem[0 := -1], 0), [], [255]))
  {
    var ops := [Op('-', 0, 0, [-1], 1, 0, 0), Op('.', 0, 0, [], 0, 0, 0)];
    var m0 := Engine.Start([]);
    var m1 := Machine(1, Tape(m0.tape.mem[0 := -1], 0), [], []);
    var m2 := Machine(2, Tape(m0.tape.mem[0 := -1], 0), [], [255]);
    MinusStep(ops, eof);
    RunUnfold(ops, m0, eof, fuel);
    DotStep(ops, m1, eof);
    RunUnfold(ops, m1, eof, fuel - 1);
  }

  lemma DotStep(ops: seq<Op>, m: Machine, eof: int)
    requires ops == [Op('-', 0, 0, [-1], 1, 0, 0), Op('.', 0, 0, [], 0, 0, 0)]
    requires m.pc == 1 && m.tape.ind == 0 && |m.tape.mem| > 0 && m.tape.mem[0] == -1
    ensures Runnable(ops) && Inside(ops, m)
    ensures Step(ops, m, eof) == Some(m.(pc := 2, output := m.output + [255]))
  {
    assert LowByte(-1) == 255;
  }

  lemma MinusStep(ops: seq<Op>, eof: int)
    requires ops == [Op('-', 0, 0, [-1], 1, 0, 0), Op('.', 0, 0, [], 0, 0, 0)]
    ensures Runnable(ops)
    ensures var m0 := Engine.Start([]);
            Step(ops, m0, eof) == Some(Machine(1, Tape(m0.tape.mem[0 := -1], 0), [], []))
  {
    var m0 := Engine.Start([]);
    var t := ApplyRun(ops[0], m0.tape);
    assert Grow(m0.tape.mem, 1) == m0.tape.mem;
    assert Deposit(ops[0], m0.tape) == m0.tape.mem[0 := -1];
  }

  lemma BuildMinusDot()
    ensures Build("-.") == Ok([Op('-', 0, 0, [-1], 1, 0, 0), Op('.', 0, 0, [], 0, 0, 0)])
  {
    var op := Op('-', 0, 0, [-1], 1, 0, 0);
    CommandsCons('-', ".");
    CommandsCons('.', []);
    assert ['-'] + (['.'] + []) == "-.";
    assert First("-.") == Some('-') && Rest("-.") == ".";
    MinusRun();
    DotLast(op);
  }

  lemma DotLast(op: Op)
    ensures BuildFrom([op], Some('.'), []) == Ok([op, Op('.', 0, 0, [], 0, 0, 0)])
  {
    BuildFromIo([op], '.', [], None, []);
    assert AppendOp([op], '.') == [op, Op('.', 0, 0, [], 0, 0, 0)];
  }

  lemma MinusRun()
    ensures BuildFrom([], Some('-'), ".") == BuildFrom([Op('-', 0, 0, [-1], 1, 0, 0)], Some('.'), [])
  {
    SplitRunOf('-', ".", "-", Some('.'), []);
    MinusCoalesce();
    FirstRun('-', ".", "-", Some('.'), [], Run([-1], 1, 0, 0));
  }

  // ---------------------------------------------------------------------
  // Evaluation helpers.

  /** The first op of a build, when it is a run command. */
  lemma FirstRun(x: char, rest: seq<char>, done: seq<char>, c: Option<char>, rest': seq<char>, run: Run)
    requires IsCommand(x) && !TakesNoRun(x) && x != ']' && AllCommands(rest)
    requires SplitRun(x, rest) == RunEnd(done, c, rest') && Coalesce(done) == run
    ensures AllCommands(rest') && (c.Some? ==> IsCommand(c.value))
    ensures BuildFrom([], Some(x), rest) == BuildFrom([WithRun(ZeroOp.(ch := x), run)], c, rest')
  {
    var linked := AppendOp([], x);
    var op := WithRun(ZeroOp.(ch := x), run);
    assert linked == [ZeroOp.(ch := x)];
    BuildFromRun([], x, rest, linked, op, c, rest');
    assert linked[0 := op] == [op];
  }

  /** The run of a fold whose first and last cells are non-zero. */
  lemma CoalesceUntrimmed(cmds: seq<char>, w: Window)
    requires Fold(cmds) == w && |w.buf| > 0 && w.buf[0] != 0 && w.buf[|w.buf| - 1] != 0
    ensures Coalesce(cmds) == Run(w.buf, |w.buf|, w.offset, w.idx + w.offset)
  {
  }

  lemma MinusCoalesce()
    ensures Coalesce("-") == Run([-1], 1, 0, 0)
  {
    FoldSnoc([], '-');
    assert [] + ['-'] == "-";
    CoalesceUntrimmed("-", Window([-1], 0, 0));
  }

  lemma PlusCoalesce()
    ensures Coalesce("+") == Run([1], 1, 0, 0)
  {
    FoldSnoc([], '+');
    assert [] + ['+'] == "+";
    CoalesceUntrimmed("+", Window([1], 0, 0));
  }

  lemma BelowCoalesce(cmds: seq<char>)
    requires |cmds| == 2 && cmds[0] == '<' && cmds[1] == '+'
    ensures Coalesce(cmds) == Run([1, 0], 1, -1, -1)
  {
    var below := cmds[..1];
    assert Fold(below) == Window([0, 0], 0, -1) by {
      FoldSnoc([], '<');
      assert [] + ['<'] == below;
    }
    assert Fold(cmds) == Window([1, 0], 0, -1) by {
      FoldSnoc(below, '+');
      assert below + ['+'] == cmds;
    }
    assert TrimTail([1, 0], 2) == 1;
  }

  lemma FoldStep(cmds: seq<char>, c: char, w: Window, w': Window)
    requires Fold(cmds) == w && 0 <= w.idx < |w.buf| && Apply(w, c) == w'
    ensures Fold(cmds + [c]) == w'
  {
    FoldSnoc(cmds, c);
  }

  lemma FoldSnoc(cmds: seq<char>, c: char)
    ensures Fold(cmds + [c]) == Apply(Fold(cmds), c)
  {
    assert (cmds + [c])[..|cmds|] == cmds;
  }

  lemma CommandsCons(c: char, s: seq<char>)
    requires IsCommand(c)
    ensures Commands([c] + s) == [c] + Commands(s)
  {
    assert ([c] + s)[1..] == s;
  }

  // ---------------------------------------------------------------------
  // Input and output.

  /** `,` stores the input byte in the cell and `.` writes it back. */
  lemma EchoOneByte(eof: int, fuel: nat)
    requires fuel >= 2
    ensures Interpret(",.", [65], eof, fuel) == Ok(Report([], Halted, [65]))
  {
    var ops := [Op(',', 0, 0, [], 0, 0, 0), Op('.', 0, 0, [], 0, 0, 0)];
    var mem := Engine.Start([65]).tape.mem[0 := 65];
    BuildEcho();
    EchoRuns(eof, fuel);
    InterpretOf(",.", ops, [65], eof, fuel, Outcome(Halted, Machine(2, Tape(mem, 0), [], [65])));
  }

  lemma BuildEcho()
    ensures Build(",.") == Ok([Op(',', 0, 0, [], 0, 0, 0), Op('.', 0, 0, [], 0, 0, 0)])
  {
    CommandsCons(',', ".");
    CommandsCons('.', []);
    assert [','] + (['.'] + []) == ",.";
    assert First(",.") == Some(',') && Rest(",.") == ".";
    BuildFromIo([], ',', ".", Some('.'), []);
    assert AppendOp([], ',') == [Op(',', 0, 0, [], 0, 0, 0)];
    DotLast(Op(',', 0, 0, [], 0, 0, 0));
  }

  lemma EchoRuns(eof: int, fuel: nat)
    requires fuel >= 2
    ensures var ops := [Op(',', 0, 0, [], 0, 0, 0), Op('.', 0, 0, [], 0, 0, 0)];
            var mem := Engine.Start([65]).tape.mem[0 := 65];
            Runnable(ops) && Engine.Run(ops, Engine.Start([65]), eof, fuel) == Outcome(Halted, Machine(2, Tape(mem, 0), [], [65]))
  {
    var ops := [Op(',', 0, 0, [], 0, 0, 0), Op('.', 0, 0, [], 0, 0, 0)];
    var m0 := Engine.Start([65]);
    var m1 := Machine(1, Tape(m0.tape.mem[0 := 65], 0), [], []);
    assert Step(ops, m0, eof) == Some(m1);
    RunUnfold(ops, m0, eof, fuel);
    assert m1.tape.mem[0] == 65 && LowByte(65) == 65;
    IoKeepsCursor(ops, m1, eof);
    var r := Step(ops, m1, eof).value;
    assert r.pc == 2 && r.tape == m1.tape && r.input == [];
    assert r.output == [] + [65] == [65];
    assert r == Machine(2, Tape(m0.tape.mem[0 := 65], 0), [], [65]);
    RunUnfold(ops, m1, eof, fuel - 1);
  }

  /** `+++.` writes the byte 3. */
  lemma PlusPlusPlusDot(eof: int, fuel: nat)
    requires fuel >= 2
    ensures Interpret("+++.", [], eof, fuel) == Ok(Report([], Halted, [3]))
  {
    var op := Op('+', 0, 0, [3], 1, 0, 0);
    var ops := [op, Op('.', 0, 0, [], 0, 0, 0)];
    var mem := Engine.Start([]).tape.mem[0 := 3];
    BuildPlusDot("+++.");
    RunThenDot(op, eof, fuel);
    InterpretOf("+++.", ops, [], eof, fuel, Outcome(Halted, Machine(2, Tape(mem, 0), [], [3])));
  }

  lemma BuildPlusDot(text: seq<char>)
    requires |text| == 4 && text[0] == '+' && text[1] == '+' && text[2] == '+' && text[3] == '.'
    ensures Build(text) == Ok([Op('+', 0, 0, [3], 1, 0, 0), Op('.', 0, 0, [], 0, 0, 0)])
  {
    var op := Op('+', 0, 0, [3], 1, 0, 0);
    assert AllCommands(text);
    BuildStart(text);
    PlusDotHead(text);
    assert text[4..] == [];
    DotLast(op);
  }

  /** The three pluses make one run, and `.` is read next. */
  lemma PlusDotHead(text: seq<char>)
    requires |text| == 4 && text[0] == '+' && text[1] == '+' && text[2] == '+' && text[3] == '.'
    ensures BuildFrom([], Some('+'), text[1..]) == BuildFrom([Op('+', 0, 0, [3], 1, 0, 0)], Some('.'), text[4..])
  {
    var run, tail := text[..3], text[4..];
    assert AllCommands(text[1..]);
    assert ['+'] + text[1..] == run + ([text[3]] + tail) && tail == [];
    assert run == seq(3, _ => '+');
    SplitRunOf('+', text[1..], run, Some('.'), tail);
    PlusRun(3, run);
    FirstRun('+', text[1..], run, Some('.'), tail, Run([3], 1, 0, 0));
  }

  /** A one-cell run at the cursor followed by `.`: the cell gets the run's
      delta and its low byte is written. */
  lemma RunThenDot(op: Op, eof: int, fuel: nat)
    requires fuel >= 2 && op.ch == '+' && op.shift == 0 && op.offset == 0 && op.size == 1
    requires |op.d| == 1 && op.opInd == 0 && op.linear == 0 && 0 <= op.d[0] < 256
    ensures var ops := [op, Op('.', 0, 0, [], 0, 0, 0)];
            var mem := Engine.Start([]).tape.mem[0 := op.d[0]];
            Runnable(ops) && Engine.Run(ops, Engine.Start([]), eof, fuel) == Outcome(Halted, Machine(2, Tape(mem, 0), [], [op.d[0] as Byte]))
  {
    var ops := [op, Op('.', 0, 0, [], 0, 0, 0)];
    var m0 := Engine.Start([]);
    var m1 := Machine(1, Tape(m0.tape.mem[0 := op.d[0]], 0), [], []);
    assert Grow(m0.tape.mem, 1) == m0.tape.mem;
    assert Deposit(op, m0.tape) == m0.tape.mem[0 := op.d[0]];
    assert Step(ops, m0, eof) == Some(m1);
    RunUnfold(ops, m0, eof, fuel);
    assert m1.tape.mem[0] == op.d[0] && LowByte(op.d[0]) == op.d[0];
    IoKeepsCursor(ops, m1, eof);
    var r := Step(ops, m1, eof).value;
    assert r.output == [] + [op.d[0] as Byte] == [op.d[0] as Byte];
    assert r == Machine(2, m1.tape, [], [op.d[0] as Byte]);
    RunUnfold(ops, m1, eof, fuel - 1);
  }

  // ---------------------------------------------------------------------
  // More evaluation helpers.

  /** A text of commands only is its own filtered text. */
  /** A text made only of commands is built from its first command on. */
  lemma BuildStart(text: seq<char>)
    requires |text| > 0 && AllCommands(text)
    ensures AllCommands(text[1..])
    ensures Build(text) == BuildFrom([], Some(text[0]), text[1..])
  {
    CommandsOf(text);
  }

  lemma {:induction false} CommandsOf(s: seq<char>)
    requires AllCommands(s)
    ensures Commands(s) == s
  {
    if s != [] {
      CommandsOf(s[1..]);
      assert s == [s[0]] + s[1..];
    }
  }

  /** `n` `+` commands add `n` to the cell under the run cursor. */
  /** A run of `n` pluses coalesces to one cell holding `n`. */
  lemma PlusRun(n: int, run: seq<char>)
    requires 0 < n && run == seq(n, _ => '+')
    ensures Coalesce(run) == Run([n], 1, 0, 0)
  {
    FoldPluses([], n);
    assert [] + run == run;
    CoalesceUntrimmed(run, Window([n], 0, 0));
  }

  lemma {:induction false} FoldPluses(cmds: seq<char>, n: nat)
    ensures var w := Fold(cmds);
            Fold(cmds + seq(n, _ => '+')) == w.(buf := w.buf[w.idx := w.buf[w.idx] + n])
  {
    var w := Fold(cmds);
    if n == 0 {
      assert cmds + seq(0, _ => '+') == cmds;
      assert w.buf[w.idx := w.buf[w.idx] + 0] == w.buf;
    } else {
      FoldPluses(cmds, n - 1);
      assert cmds + seq(n, _ => '+') == (cmds + seq(n - 1, _ => '+')) + ['+'];
      FoldSnoc(cmds + seq(n - 1, _ => '+'), '+');
    }
  }

  /** A final `.` is appended with no run. */
  lemma DotAppend(ops: seq<Op>)
    ensures BuildFrom(ops, Some('.'), []) == Ok(ops + [Op('.', 0, 0, [], 0, 0, 0)])
  {
    BuildFromIo(ops, '.', [], None, []);
    assert AppendOp(ops, '.') == ops + [Op('.', 0, 0, [], 0, 0, 0)];
  }

  /** Linking once the scan has found `i`. */
  lemma LinkAt(ops: seq<Op>, i: nat)
    requires |ops| > 0 && Scan(Chars(ops[..|ops| - 1]), 1) == Some(i)
    ensures var size := |ops| - 1;
            Link(ops) == Ok(ops[i := ops[i].(opInd := size)][size := ops[size].(opInd := i)])
  {
  }
}
