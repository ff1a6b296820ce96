/** The linear-loop optimiser (the second loop of `bf_int`, main.c:194-210).

    A loop `[` ... `]` whose body is a single run that returns the cursor to
    where it started (`shift == 0`) and whose window covers the cursor cell
    (`offset <= 0`) is marked with `linear`, the amount one pass removes from
    the cursor cell. A negative amount means the loop can only grow its
    counter: the optimiser warns and leaves the op unmarked. */
module Optimizer {
  import opened Ops
  import opened Program

  /** The op at index `i` is a `[` whose partner is the next op and whose run
      keeps the cursor in place and covers the entry cell. */
  predicate Candidate(op: Op, i: nat)
  {
    op.ch == '[' && op.opInd == i + 1 && op.shift == 0 && op.offset <= 0
  }

  /** What one pass of a candidate loop takes from the cursor cell: the
      negated delta stored at index `-offset` of the buffer, read without a
      check against `size` (main.c:201). */
  function PassDecrement(op: Op): int
    requires op.offset <= 0 && -op.offset < |op.d|
  {
    -op.d[-op.offset]
  }

  /** The read of main.c:201 stays inside the allocated buffer. */
  predicate EntryInBuffer(op: Op)
  {
    op.ch == '[' && op.offset <= 0 ==> -op.offset < |op.d|
  }

  /** The mark the optimiser gives the op at index `i`. */
  function Linear(op: Op, i: nat): (r: int)
    requires EntryInBuffer(op)
    ensures r >= 0
    ensures r != 0 <==> Candidate(op, i) && PassDecrement(op) > 0
    ensures r != 0 ==> r == PassDecrement(op)
  {
    if Candidate(op, i) then
      if PassDecrement(op) < 0 then 0 else PassDecrement(op)
    else 0
  }

  /** The candidate at index `i` is an infinite loop: its pass adds to the
      counter cell. */
  predicate Warns(op: Op, i: nat)
    requires EntryInBuffer(op)
  {
    Candidate(op, i) && PassDecrement(op) < 0
  }

  /** The program with every op marked: only `linear` changes, and every
      mark is non-negative. */
  function Optimized(ops: seq<Op>): (r: seq<Op>)
    requires WellFormed(ops)
    ensures |r| == |ops|
    ensures forall k :: 0 <= k < |ops| ==> r[k].(linear := 0) == ops[k] && r[k].linear >= 0
  {
    seq(|ops|, k requires 0 <= k < |ops| => ops[k].(linear := Linear(ops[k], k)))
  }

  /** The warnings drawn by the first `n` ops, in the order the loop
      prints them. */
  function Warnings(ops: seq<Op>, n: nat): seq<nat>
    requires WellFormed(ops) && n <= |ops|
  {
    if n == 0 then []
    else
      var w := Warnings(ops, n - 1);
      if Warns(ops[n - 1], n - 1) then w + [n - 1] else w
  }

  /** The warnings are the indices below `n` of the ops that warn, each
      once, in increasing order. */
  lemma {:induction false} WarningsMeaning(ops: seq<Op>, n: nat)
    requires WellFormed(ops) && n <= |ops|
    ensures var r := Warnings(ops, n);
            && (forall k :: 0 <= k < |r| ==> r[k] < n)
            && (forall k, l :: 0 <= k < l < |r| ==> r[k] < r[l])
            && (forall i :: 0 <= i < n ==> (i in r <==> Warns(ops[i], i)))
  {
    if n > 0 {
      WarningsMeaning(ops, n - 1);
      var w := Warnings(ops, n - 1);
      assert forall i :: 0 <= i < n - 1 ==> (i in w <==> Warns(ops[i], i));
      assert n - 1 !in w;
      if Warns(ops[n - 1], n - 1) {
        var r := w + [n - 1];
        forall i | 0 <= i < n
          ensures i in r <==> Warns(ops[i], i)
        {
          if i < n - 1 {
            assert i in r <==> i in w;
          }
        }
      }
    }
  }

  /** The optimiser's loop: every op gets its mark, and the warnings are
      reported in order. */
  method Optimize(ops: seq<Op>) returns (opt: seq<Op>, warnings: seq<nat>)
    requires WellFormed(ops)
    ensures opt == Optimized(ops)
    ensures warnings == Warnings(ops, |ops|)
  {
    opt := ops;
    warnings := [];
    var i := 0;
    while i < |ops|
      invariant 0 <= i <= |ops| && |opt| == |ops|
      invariant forall k :: 0 <= k < i ==> opt[k] == ops[k].(linear := Linear(ops[k], k))
      invariant forall k :: i <= k < |ops| ==> opt[k] == ops[k]
      invariant warnings == Warnings(ops, i)
    {
      var op := opt[i];
      assert op == ops[i] && OpWellFormed(op, |ops|);
      var linear, warn := MarkOp(op, i);
      if warn {
        warnings := warnings + [i];
      }
      opt := opt[i := op.(linear := linear)];
      i := i + 1;
    }
  }

  /** The body of the optimiser's loop for the op at index `i`
      (main.c:198-209): its mark, and whether it draws the warning. */
  method MarkOp(op: Op, i: nat) returns (linear: int, warn: bool)
    requires EntryInBuffer(op)
    ensures linear == Linear(op, i) && warn == Warns(op, i)
  {
    linear := 0;
    warn := false;
    if op.ch == '[' && op.opInd == i + 1 && op.shift == 0 && op.offset <= 0 {
      linear := -op.d[-op.offset];
      if linear < 0 {
        warn := true;
        linear := 0;
      }
    }
  }

  /** Marking keeps the bracket pairing the build made, which the engine's
      jumps follow. */
  lemma OptimizedPaired(ops: seq<Op>)
    requires WellFormed(ops) && Paired(ops)
    ensures Paired(Optimized(ops))
  {
    var r := Optimized(ops);
    assert Chars(r) == Chars(ops);
    forall k | 0 <= k < |r| && r[k].ch == ']' ensures Closes(r, k) {
      assert Closes(ops, k);
    }
  }

  /** A mark is placed exactly on the candidates whose pass decrement is
      positive, and a warning is drawn exactly by those whose decrement is
      negative; a candidate whose decrement is zero gets neither. */
  lemma MarkOrWarning(ops: seq<Op>, i: nat)
    requires WellFormed(ops) && i < |ops|
    ensures Optimized(ops)[i].linear != 0 <==> Candidate(ops[i], i) && PassDecrement(ops[i]) > 0
    ensures i in Warnings(ops, |ops|) <==> Candidate(ops[i], i) && PassDecrement(ops[i]) < 0
    ensures !(Optimized(ops)[i].linear != 0 && i in Warnings(ops, |ops|))
  {
    assert OpWellFormed(ops[i], |ops|);
    WarningsMeaning(ops, |ops|);
  }
}
