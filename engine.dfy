/** The execution engine (the third loop of `bf_int`, main.c:212-276).

    The machine walks the op array. `[` and `]` test the cursor cell and may
    jump to their partner; whichever op the machine then stands on has its
    run applied: the tape grows to cover the run's window, the window's
    deltas are added (scaled by the counter divided by `linear` when the op
    is marked), the tape grows again to cover a rightward shift, and the
    cursor moves. `,` stores the next input value and `.` emits the cursor
    cell; neither touches the run or the cursor.

    The tape index is never checked against 0 by the code; an access below
    the tape is `Faulted` here. */
module Engine {
  import opened Base
  import opened Ops
  import opened Runs

  /** `MIN_BF_MEM_SIZE` (main.c:6): the tape starts with this many cells. */
  const MinMemSize: nat := 30000

  // ---------------------------------------------------------------------
  // C division.

  function Abs(x: int): nat
  {
    if x < 0 then -x else x
  }

  function Sign(b: int): int
  {
    if b < 0 then -1 else 1
  }

  /** C99's `/` on `int`: the number of whole divisors that fit in the
      dividend, counted toward zero, with the sign of the exact quotient. */
  function TruncDiv(a: int, b: int): int
    requires b != 0
    decreases Abs(a)
  {
    if Abs(a) < Abs(b) then 0
    else if a > 0 then TruncDiv(a - Abs(b), b) + Sign(b)
    else TruncDiv(a + Abs(b), b) - Sign(b)
  }

  /** The C99 rule for `/` and `%`: the remainder `a - (a / b) * b` is
      smaller than the divisor and is zero or has the sign of the
      dividend. */
  lemma {:induction false} TruncDivRemainder(a: int, b: int)
    requires b != 0
    ensures var r := a - TruncDiv(a, b) * b;
            Abs(r) < Abs(b) && (r == 0 || (r < 0) == (a < 0))
    decreases Abs(a)
  {
    if Abs(a) >= Abs(b) {
      var a' := if a > 0 then a - Abs(b) else a + Abs(b);
      TruncDivStep(a, b);
      TruncDivRemainder(a', b);
    }
  }

  /** One step of the division: taking one divisor's worth off the
      dividend, toward zero, leaves the remainder unchanged. */
  lemma TruncDivStep(a: int, b: int)
    requires b != 0 && Abs(a) >= Abs(b)
    ensures var a' := if a > 0 then a - Abs(b) else a + Abs(b);
            a - TruncDiv(a, b) * b == a' - TruncDiv(a', b) * b
  {
    var a' := if a > 0 then a - Abs(b) else a + Abs(b);
    var q' := TruncDiv(a', b);
    var s := if a > 0 then Sign(b) else -Sign(b);
    assert TruncDiv(a, b) == q' + s;
    assert a' == a - s * b by {
      if b < 0 { assert Sign(b) == -1; } else { assert Sign(b) == 1; }
    }
    MulAdd(q', s, b);
  }

  /** Negating the dividend negates the quotient. */
  lemma {:induction false} TruncDivOdd(a: int, b: int)
    requires b != 0
    ensures TruncDiv(-a, b) == -TruncDiv(a, b)
    decreases Abs(a)
  {
    if Abs(a) >= Abs(b) && a != 0 {
      if a > 0 {
        TruncDivOdd(a - Abs(b), b);
        assert -(a - Abs(b)) == -a + Abs(b);
      } else {
        TruncDivOdd(a + Abs(b), b);
        assert -(a + Abs(b)) == -a - Abs(b);
      }
    }
  }

  /** On non-negative operands `/` is the ordinary quotient. */
  lemma TruncDivNonNegative(a: nat, b: int)
    requires b > 0
    ensures TruncDiv(a, b) == a / b
  {
    TruncDivRemainder(a, b);
    DivUnique(a, b, TruncDiv(a, b));
  }

  /** On a negative dividend and a positive divisor, `/` rounds toward zero:
      it agrees with floor division when the divisor divides the dividend
      and is one more than it otherwise (`-7 / 2` is -3 in C, -4 as a floor). */
  lemma TruncDivNegative(a: int, b: int)
    requires a < 0 && b > 0
    ensures a % b == 0 ==> TruncDiv(a, b) == a / b
    ensures a % b != 0 ==> TruncDiv(a, b) == a / b + 1
  {
    var q, r := a / b, a % b;
    TruncDivOdd(-a, b);
    TruncDivNonNegative(-a, b);
    assert -(-a) == a;
    DivMod(a, b);
    NegMul(q, b);
    if r == 0 {
      DivUnique(-a, b, -q);
    } else {
      DivUnique(-a, b, -q - 1);
    }
  }

  lemma DivMod(a: int, b: int)
    requires b > 0
    ensures a == (a / b) * b + a % b && 0 <= a % b < b
  {
  }

  lemma NegMul(q: int, b: int)
    ensures (-q) * b == -(q * b) && (-q - 1) * b == -(q * b) - b
  {
  }

  /** A multiple of `b` divides back exactly. */
  lemma {:induction false} TruncDivMultiple(n: nat, b: int)
    requires b > 0
    ensures TruncDiv(n * b, b) == n
  {
    if n > 0 {
      TruncDivMultiple(n - 1, b);
      assert n * b - b == (n - 1) * b;
      MulSign(n, b);
    }
  }

  lemma MulDistrib(x: int, y: int, b: int)
    ensures (x - y) * b == x * b - y * b
  {
  }

  lemma MulAdd(q: int, s: int, b: int)
    ensures (q + s) * b == q * b + s * b
  {
  }

  /** Euclidean division is the only quotient whose remainder lies in
      `[0, b)`. */
  lemma DivUnique(a: int, b: int, q: int)
    requires b > 0 && 0 <= a - q * b < b
    ensures a / b == q
  {
    var k := a / b - q;
    MulDistrib(a / b, q, b);
    MulSign(k, b);
  }

  lemma MulSign(k: int, b: int)
    requires b > 0
    ensures k >= 1 ==> k * b >= b
    ensures k <= -1 ==> k * b <= -b
  {
    if k >= 1 {
      assert k * b == (k - 1) * b + b;
      MulNonNeg(k - 1, b);
    } else if k <= -1 {
      assert k * b == -((-k - 1) * b) - b;
      MulNonNeg(-k - 1, b);
    }
  }

  lemma MulNonNeg(x: nat, y: nat)
    ensures x * y >= 0
  {
  }

  // ---------------------------------------------------------------------
  // The tape.

  /** `zalloc_int(mem, n, |mem|)` when `n` exceeds the tape: the tape
      extended with zero cells; otherwise the tape unchanged. */
  function Grow(mem: seq<int>, n: int): (r: seq<int>)
    ensures |r| == (if n > |mem| then n else |mem|)
    ensures forall j :: 0 <= j < |r| ==> r[j] == Cell(mem, j)
  {
    if n > |mem| then Extend(mem, n, 0) else mem
  }

  /** A cell of the tape, reading 0 beyond its end (where growth would put
      a zero cell). */
  function Cell(mem: seq<int>, j: int): int
  {
    if 0 <= j < |mem| then mem[j] else 0
  }

  /** The tape after the `size` deltas of `d`, each multiplied by `k`, are
      added from cell `base` on, one cell after the other (the loops of
      main.c:253-263). */
  function AddRun(mem: seq<int>, base: int, d: seq<int>, size: nat, k: int): (r: seq<int>)
    requires size <= |d| && 0 <= base && base + size <= |mem|
    ensures |r| == |mem|
    ensures forall j :: 0 <= j < |mem| ==> r[j] == mem[j] + k * Delta(d, size, base, j)
    decreases size
  {
    if size == 0 then mem
    else
      var r := AddRun(mem, base, d, size - 1, k);
      r[base + size - 1 := r[base + size - 1] + k * d[size - 1]]
  }

  /** The cursor position and the tape. */
  datatype Tape = Tape(mem: seq<int>, ind: int)

  /** What a run is multiplied by: the counter divided by the mark for a
      marked op, 1 otherwise. */
  function Factor(op: Op, t: Tape): int
    requires op.linear != 0 ==> 0 <= t.ind < |t.mem|
  {
    if op.linear != 0 then TruncDiv(t.mem[t.ind], op.linear) else 1
  }

  /** Applying `op`'s run at the cursor (main.c:244-275): `None` when it
      would touch a cell below the tape. */
  function ApplyRun(op: Op, t: Tape): (r: Option<Tape>)
    requires op.size <= |op.d| && t.ind < |t.mem|
    ensures r.None? <==> op.size != 0 && (t.ind + op.offset < 0 || (op.linear != 0 && t.ind < 0))
    ensures r.Some? ==> r.value.ind == t.ind + op.shift && r.value.ind < |r.value.mem|
  {
    if op.size != 0 && (t.ind + op.offset < 0 || (op.linear != 0 && t.ind < 0)) then None
    else
      var m := Grow(Deposit(op, t), if op.shift > 0 then t.ind + op.shift + 1 else 0);
      Some(Tape(m, t.ind + op.shift))
  }

  /** The tape after the window's deltas are added (main.c:244-264),
      before any growth for the shift. */
  function Deposit(op: Op, t: Tape): (r: seq<int>)
    requires op.size <= |op.d| && t.ind < |t.mem|
    requires op.size != 0 ==> 0 <= t.ind + op.offset && (op.linear != 0 ==> 0 <= t.ind)
    ensures |r| == (if op.size != 0 && t.ind + op.offset + op.size > |t.mem| then t.ind + op.offset + op.size else |t.mem|)
    ensures forall j :: 0 <= j < |r| ==>
              r[j] == Cell(t.mem, j) + (if op.size == 0 then 0 else Factor(op, t) * Delta(op.d, op.size, t.ind + op.offset, j))
  {
    if op.size == 0 then t.mem
    else AddRun(Grow(t.mem, t.ind + op.offset + op.size), t.ind + op.offset, op.d, op.size, Factor(op, t))
  }

  /** The largest of three numbers, for the tape length after a run. */
  function Max3(a: int, b: int, c: int): int
  {
    if a >= b && a >= c then a else if b >= c then b else c
  }

  /** What a run does to the tape, cell by cell: the tape grows to cover
      the window and a rightward shift, growth keeps every cell and adds
      zeros, and each cell gains the factor times its delta. */
  lemma ApplyRunMeaning(op: Op, t: Tape)
    requires op.size <= |op.d| && t.ind < |t.mem|
    requires ApplyRun(op, t).Some?
    ensures var r := ApplyRun(op, t).value;
            && |r.mem| == Max3(|t.mem|, if op.size != 0 then t.ind + op.offset + op.size else 0,
                               if op.shift > 0 then t.ind + op.shift + 1 else 0)
            && forall j :: 0 <= j < |r.mem| ==>
                 r.mem[j] == Cell(t.mem, j) + (if op.size == 0 then 0 else Factor(op, t) * Delta(op.d, op.size, t.ind + op.offset, j))
  {
  }

  // ---------------------------------------------------------------------
  // The run against the commands it came from.

  /** A naive run built from `cmds` does to every cell what the commands
      do one at a time, and moves the cursor as they do. */
  lemma NaiveRunIsNet(op: Op, cmds: seq<char>, t: Tape, p: int)
    requires op.linear == 0
    requires op.shift == Coalesce(cmds).shift && op.offset == Coalesce(cmds).offset
    requires op.d == Coalesce(cmds).d && op.size == Coalesce(cmds).size
    requires t.ind < |t.mem| && ApplyRun(op, t).Some?
    requires 0 <= t.ind + p < |ApplyRun(op, t).value.mem|
    ensures ApplyRun(op, t).value.mem[t.ind + p] == Cell(t.mem, t.ind + p) + Net(cmds, p)
    ensures ApplyRun(op, t).value.ind == t.ind + Cursor(cmds)
  {
    CoalesceMeaning(cmds, p);
    NaiveRunAdds(op, t, p);
  }

  /** An unmarked run adds its delta at each cell once. */
  lemma NaiveRunAdds(op: Op, t: Tape, p: int)
    requires op.linear == 0 && op.size <= |op.d| && t.ind < |t.mem| && ApplyRun(op, t).Some?
    requires 0 <= t.ind + p < |ApplyRun(op, t).value.mem|
    ensures ApplyRun(op, t).value.mem[t.ind + p] == Cell(t.mem, t.ind + p) + Delta(op.d, op.size, op.offset, p)
  {
    assert Delta(op.d, op.size, t.ind + op.offset, t.ind + p) == Delta(op.d, op.size, op.offset, p);
    assert Factor(op, t) == 1;
    ApplyRunMeaning(op, t);
  }

  /** `n` naive passes of a run over the tape. */
  function Passes(mem: seq<int>, base: int, d: seq<int>, size: nat, n: nat): (r: seq<int>)
    requires size <= |d| && 0 <= base && base + size <= |mem|
    ensures |r| == |mem|
  {
    if n == 0 then mem else AddRun(Passes(mem, base, d, size, n - 1), base, d, size, 1)
  }

  /** `n` passes add `n` times the deltas. */
  lemma {:induction false} PassesScale(mem: seq<int>, base: int, d: seq<int>, size: nat, n: nat)
    requires size <= |d| && 0 <= base && base + size <= |mem|
    ensures Passes(mem, base, d, size, n) == AddRun(mem, base, d, size, n)
  {
    if n > 0 {
      PassesScale(mem, base, d, size, n - 1);
      var r, s := Passes(mem, base, d, size, n), AddRun(mem, base, d, size, n);
      assert |r| == |s|;
      forall j | 0 <= j < |r| ensures r[j] == s[j] {
        assert r[j] == mem[j] + (n - 1) * Delta(d, size, base, j) + Delta(d, size, base, j);
      }
    }
  }

  /** The linear shortcut is sound on the loops it is meant for: when the
      counter cell lies inside the window, one pass takes `linear` from it,
      and the counter is a non-negative multiple `n` of `linear`, applying
      the marked run once leaves the tape that `n` naive passes leave, with
      the counter at zero (`CounterCountsDown` shows that it reads non-zero
      before each of those passes, so the naive loop makes exactly `n`). */
  lemma LinearIsPasses(op: Op, t: Tape, base: int, n: nat)
    requires base == t.ind + op.offset
    requires op.linear > 0 && op.shift == 0 && op.size <= |op.d|
    requires op.offset <= 0 && -op.offset < op.size && op.d[-op.offset] == -op.linear
    requires 0 <= t.ind + op.offset && t.ind + op.offset + op.size <= |t.mem| && t.ind < |t.mem|
    requires t.mem[t.ind] == n * op.linear
    ensures ApplyRun(op, t) == Some(Tape(Passes(t.mem, base, op.d, op.size, n), t.ind))
    ensures ApplyRun(op, t).value.mem[t.ind] == 0
  {
    assert t.ind - base == -op.offset && base <= t.ind < base + op.size;
    CounterCountsDown(t.mem, base, op.d, op.size, t.ind, op.linear, n);
    LinearRunScales(op, t, base, n);
    PassesScale(t.mem, base, op.d, op.size, n);
  }

  /** The counter reads non-zero before each of the `n` passes and zero
      after the last. */
  lemma CounterCountsDown(mem: seq<int>, base: int, d: seq<int>, size: nat, ind: int, linear: int, n: nat)
    requires size <= |d| && 0 <= base && base + size <= |mem| && base <= ind < base + size
    requires linear > 0 && d[ind - base] == -linear && mem[ind] == n * linear
    ensures Passes(mem, base, d, size, n)[ind] == 0
    ensures forall j :: 0 <= j < n ==> Passes(mem, base, d, size, j)[ind] == (n - j) * linear != 0
  {
    CounterAfter(mem, base, d, size, ind, linear, n, n);
    forall j | 0 <= j < n
      ensures Passes(mem, base, d, size, j)[ind] == (n - j) * linear != 0
    {
      CounterBefore(mem, base, d, size, ind, linear, n, j);
    }
  }

  /** Before pass `j < n` the counter is a non-zero multiple of the mark. */
  lemma CounterBefore(mem: seq<int>, base: int, d: seq<int>, size: nat, ind: int, linear: int, n: nat, j: nat)
    requires size <= |d| && 0 <= base && base + size <= |mem| && base <= ind < base + size
    requires linear > 0 && d[ind - base] == -linear && mem[ind] == n * linear && j < n
    ensures Passes(mem, base, d, size, j)[ind] == (n - j) * linear != 0
  {
    CounterAfter(mem, base, d, size, ind, linear, n, j);
    MulSign(n - j, linear);
  }

  /** A marked run whose counter holds `n` times the mark adds `n` times
      its deltas, inside the tape. */
  lemma LinearRunScales(op: Op, t: Tape, base: int, n: nat)
    requires base == t.ind + op.offset
    requires op.linear > 0 && op.shift == 0 && op.size <= |op.d| && op.size > 0
    requires 0 <= t.ind + op.offset && t.ind + op.offset + op.size <= |t.mem| && 0 <= t.ind < |t.mem|
    requires t.mem[t.ind] == n * op.linear
    ensures ApplyRun(op, t) == Some(Tape(AddRun(t.mem, base, op.d, op.size, n), t.ind))
  {
    TruncDivMultiple(n, op.linear);
    assert Factor(op, t) == n;
    assert Grow(t.mem, base + op.size) == t.mem;
    assert Deposit(op, t) == AddRun(t.mem, base, op.d, op.size, n);
  }

  /** After `j` passes the counter has lost `j` times the decrement. */
  lemma CounterAfter(mem: seq<int>, base: int, d: seq<int>, size: nat, ind: int, linear: int, n: nat, j: nat)
    requires size <= |d| && 0 <= base && base + size <= |mem| && base <= ind < base + size
    requires d[ind - base] == -linear && mem[ind] == n * linear
    ensures Passes(mem, base, d, size, j)[ind] == (n - j) * linear
  {
    PassesScale(mem, base, d, size, j);
    assert Passes(mem, base, d, size, j)[ind] == n * linear + j * -linear;
    MulDistrib(n, j, linear);
  }

  // ---------------------------------------------------------------------
  // The machine.

  /** What the engine needs of a program: links stay inside the array and
      every run's `size` fits its buffer. */
  predicate Runnable(ops: seq<Op>)
  {
    forall k :: 0 <= k < |ops| ==> ops[k].opInd < |ops| && ops[k].size <= |ops[k].d|
  }

  /** The state of the third loop of `bf_int`: the op index, the tape and
      cursor, the input not yet read and the output written so far. */
  datatype Machine = Machine(pc: nat, tape: Tape, input: seq<Byte>, output: seq<Byte>)

  /** The op index is at most one past the last op, and the cursor is below
      the tape's end (it may be negative). */
  predicate Inside(ops: seq<Op>, m: Machine)
  {
    m.pc <= |ops| && m.tape.ind < |m.tape.mem|
  }

  /** The machine before the first op: 30000 zero cells, cursor 0
      (main.c:212-214). */
  function Start(input: seq<Byte>): (m: Machine)
    ensures m.pc == 0 && m.tape.ind == 0 && |m.tape.mem| == MinMemSize
    ensures forall j :: 0 <= j < |m.tape.mem| ==> m.tape.mem[j] == 0
    ensures m.input == input && m.output == []
  {
    Machine(0, Tape(seq(MinMemSize, _ => 0), 0), input, [])
  }

  /** `getchar()`: the next input value, or `eof` at end of input. */
  function ReadInput(input: seq<Byte>, eof: int): (r: int)
    ensures input == [] ==> r == eof
    ensures input != [] ==> 0 <= r < 256 && input == [r as Byte] + Consumed(input)
  {
    if input == [] then eof else input[0]
  }

  /** The input after a read. */
  function Consumed(input: seq<Byte>): seq<Byte>
  {
    if input == [] then [] else input[1..]
  }

  /** Standing on op `target`, apply its run and move past it. */
  function Land(ops: seq<Op>, m: Machine, target: nat): (r: Option<Machine>)
    requires Runnable(ops) && Inside(ops, m) && target < |ops|
    ensures r.Some? ==> Inside(ops, r.value) && r.value.input == m.input && r.value.output == m.output
  {
    match ApplyRun(ops[target], m.tape)
    case None => None
    case Some(t) => Some(m.(pc := target + 1, tape := t))
  }

  /** One pass of the loop of main.c:221-276; `None` when the op touches a
      cell below the tape. */
  function Step(ops: seq<Op>, m: Machine, eof: int): (r: Option<Machine>)
    requires Runnable(ops) && Inside(ops, m) && m.pc < |ops|
    ensures r.Some? ==> Inside(ops, r.value)
    ensures r.Some? ==> m.output <= r.value.output
    ensures r.Some? ==> Suffix(r.value.input, m.input)
  {
    ConsumedSuffix(m.input);
    var op := ops[m.pc];
    var t := m.tape;
    if op.ch == ',' || op.ch == '.' || op.ch == '[' || op.ch == ']' then
      if t.ind < 0 then None
      else if op.ch == ',' then
        Some(m.(pc := m.pc + 1, tape := t.(mem := t.mem[t.ind := ReadInput(m.input, eof)]),
                input := Consumed(m.input)))
      else if op.ch == '.' then
        Some(m.(pc := m.pc + 1, output := m.output + [LowByte(t.mem[t.ind])]))
      else
        var jump := if op.ch == ']' then t.mem[t.ind] != 0 else t.mem[t.ind] == 0;
        Land(ops, m, if jump then op.opInd else m.pc)
    else
      Land(ops, m, m.pc)
  }

  datatype Status = Halted | Faulted | OutOfFuel

  /** How a bounded run ended, and the machine at that point. */
  datatype Outcome = Outcome(status: Status, m: Machine)

  /** `c` is what is left of `a` after some reads from its front. */
  predicate Suffix(c: seq<Byte>, a: seq<Byte>)
  {
    |c| <= |a| && c == a[|a| - |c|..]
  }

  /** The input after a read is a suffix of the input before it. */
  lemma ConsumedSuffix(input: seq<Byte>)
    ensures Suffix(Consumed(input), input) && Suffix(input, input)
  {
    assert input[|input| - |input|..] == input;
  }

  /** Up to `fuel` passes of the loop from `m`: the loop test of main.c:221
      (a machine past the last op has halted), ... */
  function Run(ops: seq<Op>, m: Machine, eof: int, fuel: nat): Outcome
    requires Runnable(ops) && Inside(ops, m)
    decreases fuel, 2
  {
    if m.pc == |ops| then Outcome(Halted, m) else Fueled(ops, m, eof, fuel)
  }

  /** ... the bound on the number of passes, ... */
  function Fueled(ops: seq<Op>, m: Machine, eof: int, fuel: nat): Outcome
    requires Runnable(ops) && Inside(ops, m) && m.pc < |ops|
    decreases fuel, 1
  {
    if fuel == 0 then Outcome(OutOfFuel, m) else Pass(ops, m, eof, fuel)
  }

  /** ... and one pass of the body, which faults or goes back to the test. */
  function Pass(ops: seq<Op>, m: Machine, eof: int, fuel: nat): Outcome
    requires Runnable(ops) && Inside(ops, m) && m.pc < |ops| && fuel > 0
    decreases fuel, 0
  {
    match Step(ops, m, eof)
    case None => Outcome(Faulted, m)
    case Some(m') => Run(ops, m', eof, fuel - 1)
  }

  /** A run halts exactly when it stands past the last op, runs out of fuel
      only inside the program, only appends to the output and only consumes
      the input from the front. */
  lemma {:induction false} RunBounds(ops: seq<Op>, m: Machine, eof: int, fuel: nat)
    requires Runnable(ops) && Inside(ops, m)
    ensures var o := Run(ops, m, eof, fuel);
            && (o.status == Halted <==> o.m.pc == |ops|)
            && (o.status == OutOfFuel ==> o.m.pc < |ops|)
            && m.output <= o.m.output
            && Suffix(o.m.input, m.input)
    decreases fuel
  {
    ConsumedSuffix(m.input);
    if m.pc == |ops| {
    } else if fuel == 0 {
      assert Run(ops, m, eof, fuel) == Outcome(OutOfFuel, m);
    } else {
      RunUnfold(ops, m, eof, fuel);
      var s := Step(ops, m, eof);
      if s.Some? {
        var m' := s.value;
        RunBounds(ops, m', eof, fuel - 1);
        PrefixOfPrefix(m.output, m'.output, Run(ops, m', eof, fuel - 1).m.output);
        SuffixOfSuffix(m.input, m'.input, Run(ops, m', eof, fuel - 1).m.input);
      }
    }
  }

  /** A prefix of a prefix is a prefix. */
  lemma PrefixOfPrefix(a: seq<Byte>, b: seq<Byte>, c: seq<Byte>)
    requires a <= b && b <= c
    ensures a <= c
  {
  }

  /** A suffix of a suffix is a suffix. */
  lemma SuffixOfSuffix(a: seq<Byte>, b: seq<Byte>, c: seq<Byte>)
    requires Suffix(b, a) && Suffix(c, b)
    ensures Suffix(c, a)
  {
  }

  /** One step of `Run`. */
  lemma RunUnfold(ops: seq<Op>, m: Machine, eof: int, fuel: nat)
    requires Runnable(ops) && Inside(ops, m) && m.pc < |ops| && fuel > 0
    ensures Step(ops, m, eof).None? ==> Run(ops, m, eof, fuel) == Outcome(Faulted, m)
    ensures Step(ops, m, eof).Some? ==> Run(ops, m, eof, fuel) == Run(ops, Step(ops, m, eof).value, eof, fuel - 1)
  {
    assert Run(ops, m, eof, fuel) == Fueled(ops, m, eof, fuel) == Pass(ops, m, eof, fuel);
  }

  /** `,` and `.` apply no run and leave the cursor where it is: `.` only
      appends the cursor cell's low byte to the output, `,` only stores the
      next input value (or `eof`) in the cursor cell. */
  lemma IoKeepsCursor(ops: seq<Op>, m: Machine, eof: int)
    requires Runnable(ops) && Inside(ops, m) && m.pc < |ops|
    requires ops[m.pc].ch == ',' || ops[m.pc].ch == '.'
    requires m.tape.ind >= 0
    ensures var r := Step(ops, m, eof);
            && r.Some? && r.value.pc == m.pc + 1 && r.value.tape.ind == m.tape.ind
            && |r.value.tape.mem| == |m.tape.mem|
            && (forall j :: 0 <= j < |m.tape.mem| && j != m.tape.ind ==> r.value.tape.mem[j] == m.tape.mem[j])
            && (ops[m.pc].ch == '.' ==> r.value.tape == m.tape && r.value.input == m.input
                                         && r.value.output == m.output + [LowByte(m.tape.mem[m.tape.ind])])
            && (ops[m.pc].ch == ',' ==> r.value.output == m.output
                                         && r.value.tape.mem[m.tape.ind] == (if m.input == [] then eof else m.input[0]))
  {
  }

  /** `[` on a zero cell and `]` on a non-zero cell jump to the partner and
      apply the partner's run; otherwise the bracket applies its own run. */
  lemma BracketControl(ops: seq<Op>, m: Machine, eof: int)
    requires Runnable(ops) && Inside(ops, m) && m.pc < |ops|
    requires ops[m.pc].ch == '[' || ops[m.pc].ch == ']'
    requires 0 <= m.tape.ind
    ensures var op := ops[m.pc];
            var jump := (op.ch == '[' && m.tape.mem[m.tape.ind] == 0)
                        || (op.ch == ']' && m.tape.mem[m.tape.ind] != 0);
            var target := if jump then op.opInd else m.pc;
            && (ApplyRun(ops[target], m.tape).None? ==> Step(ops, m, eof).None?)
            && (ApplyRun(ops[target], m.tape).Some? ==>
                  Step(ops, m, eof) == Some(m.(pc := target + 1, tape := ApplyRun(ops[target], m.tape).value)))
  {
    var op := ops[m.pc];
    var jump := if op.ch == ']' then m.tape.mem[m.tape.ind] != 0 else m.tape.mem[m.tape.ind] == 0;
    assert Step(ops, m, eof) == Land(ops, m, if jump then op.opInd else m.pc);
  }

  // ---------------------------------------------------------------------
  // The engine over a heap tape.

  /** The loop of main.c:253-263 over a heap tape. */
  method AddInPlace(a: array<int>, base: nat, d: seq<int>, size: nat, k: int)
    requires size <= |d| && base + size <= a.Length
    modifies a
    ensures a[..] == AddRun(old(a[..]), base, d, size, k)
  {
    ghost var before := a[..];
    for i := 0 to size
      invariant a[..] == AddRun(before, base, d, i, k)
    {
      ghost var pre := a[..];
      a[base + i] := a[base + i] + k * d[i];
      assert a[..] == pre[base + i := pre[base + i] + k * d[i]];
    }
  }

  /** The growth step of main.c:247-252 and 268-273: a grown copy when the
      tape is shorter than `n`, the same tape otherwise. */
  method Reserve(mem: array<int>, n: int) returns (mem': array<int>)
    ensures mem' == mem || fresh(mem')
    ensures mem'[..] == Grow(mem[..], n)
  {
    mem' := mem;
    if n > mem.Length {
      mem' := Zalloc(mem, n, 0);
    }
  }

  /** `Deposit` on the heap tape. */
  method DepositInPlace(mem: array<int>, ind: int, op: Op) returns (mem': array<int>)
    requires op.size <= |op.d| && ind < mem.Length
    requires op.size != 0 ==> 0 <= ind + op.offset && (op.linear != 0 ==> 0 <= ind)
    modifies mem
    ensures mem' == mem || fresh(mem')
    ensures mem'[..] == Deposit(op, Tape(old(mem[..]), ind))
  {
    mem' := mem;
    if op.size != 0 {
      ghost var t := Tape(mem[..], ind);
      mem' := Reserve(mem', ind + op.offset + op.size);
      var delete := 1;
      if op.linear != 0 {
        assert mem'[ind] == t.mem[ind];
        delete := TruncDiv(mem'[ind], op.linear);
      }
      assert delete == Factor(op, t);
      AddInPlace(mem', ind + op.offset, op.d, op.size, delete);
    }
  }

  /** Applying a run to the heap tape (main.c:244-275). The tape is either
      updated in place or replaced by a grown copy. */
  method ApplyRunInPlace(mem: array<int>, ind: int, op: Op) returns (ok: bool, mem': array<int>, ind': int)
    requires op.size <= |op.d| && ind < mem.Length
    modifies mem
    ensures mem' == mem || fresh(mem')
    ensures ok <==> ApplyRun(op, Tape(old(mem[..]), ind)).Some?
    ensures ok ==> ApplyRun(op, Tape(old(mem[..]), ind)) == Some(Tape(mem'[..], ind'))
  {
    mem' := mem;
    ind' := ind;
    if op.size != 0 && (ind + op.offset < 0 || (op.linear != 0 && ind < 0)) {
      return false, mem', ind';
    }
    mem' := DepositInPlace(mem, ind, op);
    if op.shift > 0 {
      mem' := Reserve(mem', ind + op.shift + 1);
    }
    ind' := ind + op.shift;
    ok := true;
  }

  /** One pass of the loop of main.c:221-276 over the heap tape. */
  method StepInPlace(ops: seq<Op>, pc: nat, mem: array<int>, ind: int, input: seq<Byte>,
                     output: seq<Byte>, eof: int)
    returns (ok: bool, pc': nat, mem': array<int>, ind': int, input': seq<Byte>, output': seq<Byte>)
    requires Runnable(ops) && pc < |ops| && ind < mem.Length
    modifies mem
    ensures mem' == mem || fresh(mem')
    ensures var s := Step(ops, Machine(pc, Tape(old(mem[..]), ind), input, output), eof);
            && (ok <==> s.Some?)
            && (ok ==> s.value == Machine(pc', Tape(mem'[..], ind'), input', output'))
  {
    pc', mem', ind', input', output' := pc, mem, ind, input, output;
    var op := ops[pc];
    if op.ch == ',' || op.ch == '.' || op.ch == '[' || op.ch == ']' {
      if ind < 0 {
        return false, pc', mem', ind', input', output';
      }
    }
    if op.ch == ',' || op.ch == '.' {
      pc', input', output' := IoInPlace(ops, pc, mem, ind, input, output, eof);
      return true, pc', mem', ind', input', output';
    }
    var target := pc;
    if op.ch == ']' {
      if mem[ind] != 0 {
        target := op.opInd;
      }
    } else if op.ch == '[' {
      if mem[ind] == 0 {
        target := op.opInd;
      }
    }
    ok, mem', ind' := ApplyRunInPlace(mem, ind, ops[target]);
    pc' := target + 1;
  }

  /** `,` stores the next input value in the cursor cell (main.c:233-237);
      `.` writes the cell's low byte (main.c:238-242). */
  method IoInPlace(ops: seq<Op>, pc: nat, mem: array<int>, ind: int, input: seq<Byte>,
                   output: seq<Byte>, eof: int)
    returns (pc': nat, input': seq<Byte>, output': seq<Byte>)
    requires Runnable(ops) && pc < |ops| && 0 <= ind < mem.Length
    requires ops[pc].ch == ',' || ops[pc].ch == '.'
    modifies mem
    ensures Step(ops, Machine(pc, Tape(old(mem[..]), ind), input, output), eof)
         == Some(Machine(pc', Tape(mem[..], ind), input', output'))
  {
    pc', input', output' := pc + 1, input, output;
    if ops[pc].ch == ',' {
      mem[ind] := if input == [] then eof else input[0];
      input' := if input == [] then [] else input[1..];
    } else {
      output' := output + [LowByte(mem[ind])];
    }
  }

  /** One pass of the third loop over the heap tape, stated against
      `Run`: either the op faults, or the run from the new state with one
      unit of fuel less ends where the run from the old state does. */
  method Advance(ops: seq<Op>, pc: nat, mem: array<int>, ind: int, input: seq<Byte>,
                 output: seq<Byte>, eof: int, ghost fuel: nat)
    returns (ok: bool, pc': nat, mem': array<int>, ind': int, input': seq<Byte>, output': seq<Byte>)
    requires Runnable(ops) && pc < |ops| && ind < mem.Length && fuel > 0
    modifies mem
    ensures mem' == mem || fresh(mem')
    ensures var m := Machine(pc, Tape(old(mem[..]), ind), input, output);
            var m' := Machine(pc', Tape(mem'[..], ind'), input', output');
            && (ok ==> Inside(ops, m') && Run(ops, m, eof, fuel) == Run(ops, m', eof, fuel - 1))
            && (!ok ==> Run(ops, m, eof, fuel) == Outcome(Faulted, m))
  {
    ghost var m := Machine(pc, Tape(mem[..], ind), input, output);
    ok, pc', mem', ind', input', output' := StepInPlace(ops, pc, mem, ind, input, output, eof);
    RunUnfold(ops, m, eof, fuel);
  }

  /** The third loop of `bf_int` (main.c:212-276), bounded by `fuel` passes:
      the tape is a heap buffer that starts with 30000 zero cells and is
      replaced by a grown copy when a run needs more. */
  method Execute(ops: seq<Op>, input: seq<Byte>, eof: int, fuel: nat) returns (status: Status, output: seq<Byte>)
    requires Runnable(ops)
    ensures status == Run(ops, Start(input), eof, fuel).status
    ensures output == Run(ops, Start(input), eof, fuel).m.output
  {
    var empty := new int[0];
    var mem := Zalloc(empty, MinMemSize, 0);
    var ind := 0;
    var pc := 0;
    var rest := input;
    output := [];
    var left := fuel;
    ghost var m := Start(input);
    ghost var goal := Run(ops, m, eof, fuel);
    assert m == Machine(pc, Tape(mem[..], ind), rest, output);
    while true
      invariant fresh(mem)
      invariant m == Machine(pc, Tape(mem[..], ind), rest, output) && Inside(ops, m)
      invariant Run(ops, m, eof, left) == goal
      decreases left
    {
      if pc == |ops| {
        return Halted, output;
      }
      if left == 0 {
        return OutOfFuel, output;
      }
      var ok, pc', mem', ind', rest', output' := Advance(ops, pc, mem, ind, rest, output, eof, left);
      if !ok {
        return Faulted, output;
      }
      m := Machine(pc', Tape(mem'[..], ind'), rest', output');
      pc, mem, ind, rest, output := pc', mem', ind', rest', output';
      left := left - 1;
    }
  }
}
