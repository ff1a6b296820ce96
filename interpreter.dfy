/** The whole of `bf_int` (main.c:142-287): the program text is built into
    an op array, the linear-loop pass marks it, and the engine runs it on a
    fresh tape. A bracket that finds no partner stops everything before any
    op runs. */
module Interpreter {
  import opened Base
  import opened Filter
  import opened Ops
  import opened Program
  import opened Optimizer
  import opened Engine

  /** What a run of the interpreter reports: the ops that drew the
      infinite-loop warning, how execution ended, and the bytes written. */
  datatype Report = Report(warnings: seq<nat>, status: Status, output: seq<Byte>)

  /** An optimised well-formed program is one the engine can run. */
  lemma OptimizedRunnable(ops: seq<Op>)
    requires WellFormed(ops)
    ensures Runnable(Optimized(ops))
  {
    forall k | 0 <= k < |ops|
      ensures Optimized(ops)[k].opInd < |ops| && Optimized(ops)[k].size <= |Optimized(ops)[k].d|
    {
      assert OpWellFormed(ops[k], |ops|);
      assert Optimized(ops)[k].(linear := 0) == ops[k];
    }
  }

  /** A loop the optimiser marks, whose entry cell lies inside the trimmed
      window, does on a counter that is a multiple `n` of its mark what `n`
      naive passes of its body do, and leaves the counter at zero. (When
      the entry cell lies outside the window, the mark comes from a stale
      cell and this need not hold.) */
  lemma MarkedLoopIsPasses(ops: seq<Op>, k: nat, t: Tape, n: nat)
    requires WellFormed(ops) && k < |ops| && Optimized(ops)[k].linear != 0
    requires -ops[k].offset < ops[k].size
    requires 0 <= t.ind + ops[k].offset && t.ind + ops[k].offset + ops[k].size <= |t.mem| && t.ind < |t.mem|
    requires t.mem[t.ind] == n * Optimized(ops)[k].linear
    ensures var op := Optimized(ops)[k];
            && ApplyRun(op, t) == Some(Tape(Passes(t.mem, t.ind + op.offset, op.d, op.size, n), t.ind))
            && ApplyRun(op, t).value.mem[t.ind] == 0
  {
    var op := Optimized(ops)[k];
    assert OpWellFormed(ops[k], |ops|);
    assert op == ops[k].(linear := Linear(ops[k], k));
    LinearIsPasses(op, t, t.ind + op.offset, n);
  }

  /** The reference meaning of `bf_int` on the text `src`, with `input` as
      what `getchar` delivers and `fuel` bounding the passes of the engine. */
  function Interpret(src: seq<char>, input: seq<Byte>, eof: int, fuel: nat): (r: Result<Report, BuildError>)
    ensures r.Err? <==> Build(src).Err?
  {
    match Build(src)
    case Err(e) => Err(e)
    case Ok(ops) =>
      OptimizedRunnable(ops);
      var o := Run(Optimized(ops), Start(input), eof, fuel);
      Ok(Report(Warnings(ops, |ops|), o.status, o.m.output))
  }

  /** `bf_int`: build, optimise, run. */
  method BfInt(src: seq<char>, input: seq<Byte>, eof: int, fuel: nat) returns (r: Result<Report, BuildError>)
    ensures r == Interpret(src, input, eof, fuel)
  {
    var built := BuildProgram(src);
    if built.Err? {
      return Err(built.error);
    }
    var ops := built.value;
    var opt, warnings := Optimize(ops);
    OptimizedRunnable(ops);
    var status, output := Execute(opt, input, eof, fuel);
    r := Ok(Report(warnings, status, output));
  }

  /** Bytes that are not commands are comments: the text and its commands
      alone behave the same. */
  lemma CommentsIgnored(src: seq<char>, input: seq<Byte>, eof: int, fuel: nat)
    ensures Interpret(Commands(src), input, eof, fuel) == Interpret(src, input, eof, fuel)
  {
    CommandsIdempotent(src);
  }

  /** A text with a comment spliced in behaves as the text without it. */
  lemma CommentInsertion(a: seq<char>, comment: seq<char>, b: seq<char>, input: seq<Byte>, eof: int, fuel: nat)
    requires forall k :: 0 <= k < |comment| ==> !IsCommand(comment[k])
    ensures Interpret(a + comment + b, input, eof, fuel) == Interpret(a + b, input, eof, fuel)
  {
    CommandsSplit(a + comment, b);
    CommandsSplit(a, comment);
    CommandsSplit(a, b);
    NoCommands(comment);
    assert Commands(a + comment + b) == Commands(a) + Commands(b) == Commands(a + b);
    assert Build(a + comment + b) == Build(a + b);
  }

  lemma {:induction false} NoCommands(s: seq<char>)
    requires forall k :: 0 <= k < |s| ==> !IsCommand(s[k])
    ensures Commands(s) == []
  {
    if s != [] {
      NoCommands(s[1..]);
    }
  }
}
