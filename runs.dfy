/** The run builder (`bf_consume`): a maximal stretch of `+ - < >` is folded
    into one delta window, then trimmed of zero deltas at both ends.

    The specification is in three layers: `Fold` replays the consumption loop
    on a window value, `TrimTail` and `TrimHead` replay the two trimming
    loops (keeping the cells a shortened buffer still holds), and `Cursor`
    and `Net` say what the commands do to a tape one at a time, which is
    what the window is proved to encode. `Consume` is the imperative builder,
    proved against `Coalesce`. */
module Runs {
  import opened Base
  import opened Filter
  import opened Ops

  predicate IsRunCommand(c: char) { c == '+' || c == '-' || c == '<' || c == '>' }

  /** The characters that end a run, those `strchr(",.[]", c)` finds:
      `, . [ ]` and NUL. */
  predicate IsTerminator(c: char) { c == ',' || c == '.' || c == '[' || c == ']' || c == '\0' }

  predicate AllRunCommands(s: seq<char>)
  {
    forall k :: 0 <= k < |s| ==> IsRunCommand(s[k])
  }

  // ---------------------------------------------------------------------
  // Reference meaning: the commands executed one at a time.

  /** How far one command moves the cursor. */
  function Move(c: char): int
  {
    if c == '>' then 1 else if c == '<' then -1 else 0
  }

  /** How much one command adds to the cell under the cursor. */
  function Bump(c: char): int
  {
    if c == '+' then 1 else if c == '-' then -1 else 0
  }

  /** The cursor after `cmds`, relative to where it stood before them. */
  function Cursor(cmds: seq<char>): int
  {
    if cmds == [] then 0 else Cursor(cmds[..|cmds| - 1]) + Move(cmds[|cmds| - 1])
  }

  /** The net change `cmds` make to the cell at `p` (relative to entry). */
  function Net(cmds: seq<char>, p: int): int
  {
    if cmds == [] then 0
    else
      var init := cmds[..|cmds| - 1];
      Net(init, p) + (if Cursor(init) == p then Bump(cmds[|cmds| - 1]) else 0)
  }

  /** The cursor ends `#'>' - #'<'` cells from where it started. */
  lemma {:induction false} CursorCounts(cmds: seq<char>)
    ensures Cursor(cmds) == multiset(cmds)['>'] as int - multiset(cmds)['<'] as int
  {
    if cmds != [] {
      var init := cmds[..|cmds| - 1];
      assert cmds == init + [cmds[|cmds| - 1]];
      CursorCounts(init);
    }
  }

  // ---------------------------------------------------------------------
  // The consumption loop (main.c:75-126) on a window value.

  /** The window while a run is consumed: the buffer `d` (whose length is
      C's `size` during consumption), the run-local cursor `idx` (C's
      `mem_ind`) and the `offset` of `d[0]`. */
  datatype Window = Window(buf: seq<int>, idx: int, offset: int)

  /** The window before any command: one zero cell, cursor and offset 0. */
  const Initial: Window := Window([0], 0, 0)

  /** One pass of the loop body for command `c`. */
  function Apply(w: Window, c: char): (r: Window)
    requires 0 <= w.idx < |w.buf|
    ensures 0 <= r.idx < |r.buf| && |w.buf| <= |r.buf| <= |w.buf| + 1
    ensures r.offset == w.offset || (c == '<' && w.idx == 0 && r.offset == w.offset - 1)
    ensures r.idx + r.offset == w.idx + w.offset + Move(c)
  {
    if c == '+' then w.(buf := w.buf[w.idx := w.buf[w.idx] + 1])
    else if c == '-' then w.(buf := w.buf[w.idx := w.buf[w.idx] - 1])
    else if c == '<' then
      if w.idx > 0 then w.(idx := w.idx - 1)
      else Window([0] + w.buf, 0, w.offset - 1)
    else if c == '>' then
      if w.idx + 1 >= |w.buf| then Window(w.buf + [0], w.idx + 1, w.offset)
      else w.(idx := w.idx + 1)
    else w
  }

  /** The window after consuming `cmds`. The cursor always lies inside the
      window, and so does the entry cell (position 0). */
  function Fold(cmds: seq<char>): (w: Window)
    ensures 0 <= w.idx < |w.buf|
    ensures w.offset <= 0 < w.offset + |w.buf|
  {
    if cmds == [] then Initial else Apply(Fold(cmds[..|cmds| - 1]), cmds[|cmds| - 1])
  }

  /** One command changes the window exactly as it changes the tape: the
      cell under the cursor gains `Bump(c)` and the cursor moves by
      `Move(c)`; extending the window adds only zero cells. */
  lemma ApplyMeaning(w: Window, c: char, p: int)
    requires 0 <= w.idx < |w.buf|
    ensures Apply(w, c).idx + Apply(w, c).offset == w.idx + w.offset + Move(c)
    ensures Delta(Apply(w, c).buf, |Apply(w, c).buf|, Apply(w, c).offset, p)
         == Delta(w.buf, |w.buf|, w.offset, p) + (if w.idx + w.offset == p then Bump(c) else 0)
  {
  }

  /** The window encodes the run: its cells hold the net change of every
      tape cell, and cursor plus offset is where the cursor ends. */
  lemma {:induction false} FoldMeaning(cmds: seq<char>)
    ensures Fold(cmds).idx + Fold(cmds).offset == Cursor(cmds)
    ensures forall p :: Delta(Fold(cmds).buf, |Fold(cmds).buf|, Fold(cmds).offset, p) == Net(cmds, p)
  {
    if cmds != [] {
      var init := cmds[..|cmds| - 1];
      var c := cmds[|cmds| - 1];
      FoldMeaning(init);
      var w0 := Fold(init);
      assert Fold(cmds) == Apply(w0, c);
      forall p
        ensures Delta(Fold(cmds).buf, |Fold(cmds).buf|, Fold(cmds).offset, p) == Net(cmds, p)
      {
        ApplyMeaning(w0, c, p);
      }
      ApplyMeaning(w0, c, 0);
    }
  }

  // ---------------------------------------------------------------------
  // Trimming (main.c:129-137).

  /** The in-use length after the trailing-zero loop: every removed cell was
      zero and the last one kept is not. */
  function TrimTail(buf: seq<int>, size: nat): (r: nat)
    requires size <= |buf|
    ensures r <= size
    ensures r == 0 || buf[r - 1] != 0
    ensures forall k :: r <= k < size ==> buf[k] == 0
  {
    if size > 0 && buf[size - 1] == 0 then TrimTail(buf, size - 1) else size
  }

  /** A window that may use only a prefix of its buffer. */
  datatype Span = Span(buf: seq<int>, size: nat, offset: int)

  predicate SpanValid(s: Span) { s.size <= |s.buf| }

  /** One pass of the leading-zero loop: the cells in use move down one
      place, the cell just past the new end keeps its old value, and the
      offset grows by one. */
  function DropFirst(s: Span): (r: Span)
    requires 0 < s.size <= |s.buf|
    ensures |r.buf| == |s.buf| && r.size == s.size - 1 && r.offset == s.offset + 1
    ensures r.buf[..r.size] == s.buf[1..s.size] && r.buf[r.size..] == s.buf[r.size..]
  {
    Span(seq(|s.buf|, k requires 0 <= k < |s.buf| => if k < s.size - 1 then s.buf[k + 1] else s.buf[k]),
         s.size - 1, s.offset + 1)
  }

  /** The leading-zero loop. The buffer keeps its length; each removal
      raises the offset by one; the first cell kept is non-zero and the last
      cell in use does not change. */
  function TrimHead(s: Span): (r: Span)
    requires SpanValid(s)
    ensures SpanValid(r) && |r.buf| == |s.buf|
    ensures r.size <= s.size && r.offset == s.offset + (s.size - r.size)
    ensures r.size == 0 || r.buf[0] != 0
    ensures r.size > 0 ==> r.buf[r.size - 1] == s.buf[s.size - 1]
    decreases s.size
  {
    if s.size > 0 && s.buf[0] == 0 then TrimHead(DropFirst(s)) else s
  }

  /** Trimming changes no cell's delta: only zeros leave the window. */
  lemma {:induction false} TrimHeadKeepsDeltas(s: Span, p: int)
    requires SpanValid(s)
    ensures Delta(TrimHead(s).buf, TrimHead(s).size, TrimHead(s).offset, p)
         == Delta(s.buf, s.size, s.offset, p)
    decreases s.size
  {
    if s.size > 0 && s.buf[0] == 0 {
      TrimHeadKeepsDeltas(DropFirst(s), p);
      DropFirstKeepsDeltas(s, p);
    }
  }

  /** Dropping a leading zero changes no cell's delta. */
  lemma DropFirstKeepsDeltas(s: Span, p: int)
    requires 0 < s.size <= |s.buf| && s.buf[0] == 0
    ensures var t := DropFirst(s);
            Delta(t.buf, t.size, t.offset, p) == Delta(s.buf, s.size, s.offset, p)
  {
    var t := DropFirst(s);
    if t.offset <= p < t.offset + t.size {
      assert t.buf[p - t.offset] == s.buf[p - s.offset];
    }
  }

  lemma TrimTailKeepsDeltas(buf: seq<int>, offset: int, p: int)
    ensures Delta(buf, TrimTail(buf, |buf|), offset, p) == Delta(buf, |buf|, offset, p)
  {
  }

  // ---------------------------------------------------------------------
  // The finished run.

  /** A run record: the fields `bf_consume` writes. */
  datatype Run = Run(d: seq<int>, size: nat, offset: int, shift: int)

  /** What `bf_consume` stores for the run `cmds`. The cells in use sit
      inside the buffer; when the offset is not positive the entry cell's
      index `-offset` is inside the buffer too, though it may lie past the
      cells in use; the first and last cells in use are non-zero. */
  function Coalesce(cmds: seq<char>): (r: Run)
    ensures r.size <= |r.d|
    ensures r.offset <= 0 ==> -r.offset < |r.d|
    ensures r.size == 0 || (r.d[0] != 0 && r.d[r.size - 1] != 0)
  {
    var w := Fold(cmds);
    var t := TrimHead(Span(w.buf, TrimTail(w.buf, |w.buf|), w.offset));
    Run(t.buf, t.size, t.offset, w.idx + w.offset)
  }

  /** The shift is the number of `>` minus the number of `<`. */
  lemma CoalesceShift(cmds: seq<char>)
    ensures Coalesce(cmds).shift == multiset(cmds)['>'] as int - multiset(cmds)['<'] as int
  {
    FoldMeaning(cmds);
    CursorCounts(cmds);
  }

  /** The trimmed window still gives every tape cell exactly the net change
      the commands make to it one at a time, and the shift is where they
      leave the cursor. */
  lemma CoalesceMeaning(cmds: seq<char>, p: int)
    ensures Delta(Coalesce(cmds).d, Coalesce(cmds).size, Coalesce(cmds).offset, p) == Net(cmds, p)
    ensures Coalesce(cmds).shift == Cursor(cmds)
  {
    var w := Fold(cmds);
    FoldMeaning(cmds);
    TrimTailKeepsDeltas(w.buf, w.offset, p);
    TrimHeadKeepsDeltas(Span(w.buf, TrimTail(w.buf, |w.buf|), w.offset), p);
  }

  /** Trimming a trimmed run again changes nothing. */
  lemma TrimIdempotent(cmds: seq<char>)
    ensures var r := Coalesce(cmds);
            TrimHead(Span(r.d, TrimTail(r.d, r.size), r.offset)) == Span(r.d, r.size, r.offset)
  {
  }

  // ---------------------------------------------------------------------
  // Where a run starts and stops.

  /** The commands a run is drawn from: after `[` or `]` the run starts
      with the next command; otherwise the op's own command opens it. */
  function RunSource(ch: char, pending: seq<char>): seq<char>
  {
    if ch == '[' || ch == ']' then pending else [ch] + pending
  }

  /** The length of the longest prefix of `s` made of `+ - < >`. */
  function RunLength(s: seq<char>): (k: nat)
    ensures k <= |s|
    ensures AllRunCommands(s[..k])
    ensures k < |s| ==> !IsRunCommand(s[k])
  {
    if s == [] || !IsRunCommand(s[0]) then 0
    else
      var k := 1 + RunLength(s[1..]);
      assert s[..k] == [s[0]] + s[1..][..k - 1];
      k
  }

  /** A prefix of run commands followed by anything else is the run. */
  lemma {:induction false} RunLengthOf(s: seq<char>, run: seq<char>, rest: seq<char>)
    requires s == run + rest && AllRunCommands(run)
    requires rest == [] || !IsRunCommand(rest[0])
    ensures RunLength(s) == |run|
  {
    if run == [] {
      assert s == rest;
    } else {
      assert s[1..] == run[1..] + rest;
      RunLengthOf(s[1..], run[1..], rest);
    }
  }

  /** The command or end of input a read returned, as a sequence. */
  function Look(c: Option<char>): seq<char>
  {
    if c.Some? then [c.value] else []
  }

  /** How the commands after an op split: the run's commands, the command
      that ends it (or end of input) and the commands after that. */
  datatype RunEnd = RunEnd(cmds: seq<char>, c: Option<char>, rest: seq<char>)

  /** The split `bf_consume` makes for an op opened by `ch` with the commands
      `pending` still in the stream: the run is the longest prefix of run
      commands, it is ended by one of `, . [ ]` or by end of input, and the
      op's own command belongs to the run unless it is a bracket. */
  function SplitRun(ch: char, pending: seq<char>): (n: RunEnd)
    requires IsCommand(ch) && AllCommands(pending)
    ensures RunSource(ch, pending) == n.cmds + (Look(n.c) + n.rest)
    ensures AllRunCommands(n.cmds) && AllCommands(n.rest)
    ensures n.c.Some? ==> IsTerminator(n.c.value)
    ensures n.c.None? ==> n.rest == []
    ensures IsRunCommand(ch) ==> |n.cmds| >= 1
  {
    var s := RunSource(ch, pending);
    var k := RunLength(s);
    if k < |s| then
      assert s == s[..k] + ([s[k]] + s[k + 1..]);
      RunEnd(s[..k], Some(s[k]), s[k + 1..])
    else
      assert s == s[..k];
      RunEnd(s, None, [])
  }

  /** A run stopped by `c` (a terminator, or end of input with nothing
      pending) is the split `SplitRun` makes. */
  lemma SplitRunOf(ch: char, pending: seq<char>, done: seq<char>, c: Option<char>, rest: seq<char>)
    requires IsCommand(ch) && AllCommands(pending)
    requires RunSource(ch, pending) == done + (Look(c) + rest) && AllRunCommands(done)
    requires c.Some? ==> IsTerminator(c.value)
    requires c.None? ==> rest == []
    ensures SplitRun(ch, pending) == RunEnd(done, c, rest)
  {
    var s := RunSource(ch, pending);
    RunLengthOf(s, done, Look(c) + rest);
    assert s[..|done|] == done;
    if c.Some? {
      assert s[|done|] == c.value;
      assert s[|done| + 1..] == rest;
    }
  }

  /** The op with the run's fields written into it. */
  function WithRun(op: Op, run: Run): Op
  {
    op.(shift := run.shift, offset := run.offset, d := run.d, size := run.size)
  }

  // ---------------------------------------------------------------------
  // The imperative builder.

  /** The left-edge case of `<` (main.c:105-111): the buffer grows by one
      cell, every delta moves up one index and a zero cell opens at index 0. */
  method ExtendLeft(d: array<int>) returns (e: array<int>)
    ensures fresh(e)
    ensures e[..] == [0] + d[..]
  {
    var size := d.Length;
    e := Zalloc(d, size + 1, 0);
    var i := size;
    while i > 0
      invariant 0 <= i <= size
      invariant forall k :: 0 <= k <= i ==> e[k] == (d[..] + [0])[k]
      invariant forall k :: i < k <= size ==> e[k] == d[k - 1]
    {
      e[i] := e[i - 1];
      i := i - 1;
    }
    e[0] := 0;
  }

  /** The trailing-zero loop (main.c:129-130). */
  method TrimTailLoop(d: array<int>) returns (size: nat)
    ensures size == TrimTail(d[..], d.Length)
  {
    size := d.Length;
    while size > 0 && d[size - 1] == 0
      invariant size <= d.Length
      invariant TrimTail(d[..], size) == TrimTail(d[..], d.Length)
    {
      size := size - 1;
    }
  }

  /** One pass of the leading-zero loop (main.c:133-135): the cells in use
      move down one index in place. */
  method DropFirstInPlace(d: array<int>, size: nat)
    requires 0 < size <= d.Length
    modifies d
    ensures d[..] == DropFirst(Span(old(d[..]), size, 0)).buf
  {
    ghost var pre := d[..];
    var i := 0;
    while i < size - 1
      invariant 0 <= i <= size - 1
      invariant forall k :: 0 <= k < i ==> d[k] == pre[k + 1]
      invariant forall k :: i <= k < d.Length ==> d[k] == pre[k]
    {
      d[i] := d[i + 1];
      i := i + 1;
    }
  }

  /** The two trimming loops (main.c:129-137) over the whole buffer `d` with
      offset `offset`: the buffer is rewritten in place and the in-use size
      and new offset are returned. */
  method Trim(d: array<int>, offset: int) returns (size: nat, off: int)
    modifies d
    ensures Span(d[..], size, off) == TrimHead(Span(old(d[..]), TrimTail(old(d[..]), d.Length), offset))
  {
    size := TrimTailLoop(d);
    off := offset;
    ghost var t := Span(d[..], size, off);
    while size > 0 && d[0] == 0
      invariant size <= d.Length
      invariant TrimHead(Span(d[..], size, off)) == TrimHead(t)
    {
      ghost var pre := Span(d[..], size, off);
      DropFirstInPlace(d, size);
      DropFirstStep(pre, d[..]);
      size := size - 1;
      off := off + 1;
    }
  }

  /** A buffer that one pass of the leading-zero loop left is the span
      `DropFirst` gives, with the same trimmed result. */
  lemma DropFirstStep(pre: Span, buf: seq<int>)
    requires 0 < pre.size <= |pre.buf| && pre.buf[0] == 0
    requires buf == DropFirst(Span(pre.buf, pre.size, 0)).buf
    ensures TrimHead(Span(buf, pre.size - 1, pre.offset + 1)) == TrimHead(pre)
  {
    assert Span(buf, pre.size - 1, pre.offset + 1) == DropFirst(pre);
  }

  /** One pass of the consumption loop's body (main.c:92-125) for the run
      command `x`, on the buffer `d` with cursor `idx` and offset `offset`.
      Growth reallocates, so the buffer is returned. */
  method ApplyInPlace(d: array<int>, idx: int, offset: int, x: char)
      returns (e: array<int>, idx': int, offset': int)
    requires 0 <= idx < d.Length && IsRunCommand(x)
    modifies d
    ensures e == d || fresh(e)
    ensures Window(e[..], idx', offset') == Apply(Window(old(d[..]), idx, offset), x)
  {
    e, idx', offset' := d, idx, offset;
    if x == '+' {
      e[idx] := e[idx] + 1;
    } else if x == '-' {
      e[idx] := e[idx] - 1;
    } else if x == '<' {
      if idx > 0 {
        idx' := idx - 1;
      } else {
        offset' := offset - 1;
        e := ExtendLeft(d);
      }
    } else {
      idx' := idx + 1;
      if idx' >= d.Length {
        e := Zalloc(d, d.Length + 1, 0);
      }
    }
  }

  lemma AppendOne(done: seq<char>, x: char, rest: seq<char>)
    requires AllRunCommands(done) && IsRunCommand(x)
    ensures AllRunCommands(done + [x])
    ensures done + ([x] + rest) == (done + [x]) + rest
  {
  }

  /** The consumption loop (main.c:81-126): starting from the command `c0`
      and the stream at `pos`, commands are applied to a fresh one-cell
      window until one of `, . [ ]` or end of input. */
  method ReadRun(src: seq<char>, pos: nat, c0: Option<char>)
      returns (d: array<int>, idx: int, offset: int, c: Option<char>, next: nat, ghost done: seq<char>)
    requires pos <= |src|
    requires c0.Some? ==> IsCommand(c0.value)
    requires c0.None? ==> Pending(src, pos) == []
    ensures pos <= next <= |src| && fresh(d)
    ensures Window(d[..], idx, offset) == Fold(done) && AllRunCommands(done)
    ensures c.Some? ==> IsTerminator(c.value)
    ensures c.None? ==> Pending(src, next) == []
    ensures Look(c0) + Pending(src, pos) == done + (Look(c) + Pending(src, next))
  {
    c, next := c0, pos;
    d := new int[1](_ => 0);
    idx, offset := 0, 0;
    done := [];
    assert Fold(done) == Initial;
    while c.Some? && !IsTerminator(c.value)
      invariant pos <= next <= |src|
      invariant fresh(d)
      invariant Window(d[..], idx, offset) == Fold(done)
      invariant AllRunCommands(done)
      invariant c.Some? ==> IsCommand(c.value)
      invariant c.None? ==> Pending(src, next) == []
      invariant Look(c0) + Pending(src, pos) == done + (Look(c) + Pending(src, next))
      decreases |src| - next + (if c.Some? then 1 else 0)
    {
      var x := c.value;
      ghost var w0 := Fold(done);
      ghost var before := next;
      d, idx, offset := ApplyInPlace(d, idx, offset, x);
      assert (done + [x])[..|done|] == done;
      assert Window(d[..], idx, offset) == Apply(w0, x);
      c, next := GetBfChar(src, next);
      AppendOne(done, x, Look(c) + Pending(src, next));
      done := done + [x];
    }
  }

  /** Where the run of an op opened by `ch` starts (main.c:70-73): after a
      bracket, at the next command of the stream; otherwise at `ch` itself. */
  method RunStart(src: seq<char>, pos: nat, ch: char) returns (c0: Option<char>, next: nat)
    requires pos <= |src| && IsCommand(ch)
    ensures pos <= next <= |src|
    ensures c0.Some? ==> IsCommand(c0.value)
    ensures c0.None? ==> Pending(src, next) == []
    ensures Look(c0) + Pending(src, next) == RunSource(ch, Pending(src, pos))
  {
    c0, next := Some(ch), pos;
    if ch == '[' || ch == ']' {
      c0, next := GetBfChar(src, pos);
    }
  }

  /** The end of `bf_consume` (main.c:127-137): the shift is read off the
      window and both ends of the buffer are trimmed. */
  method Finish(d: array<int>, idx: int, offset: int, ghost cmds: seq<char>)
    returns (shift: int, size: nat, off: int)
    requires Window(d[..], idx, offset) == Fold(cmds)
    modifies d
    ensures Run(d[..], size, off, shift) == Coalesce(cmds)
  {
    shift := idx + offset;
    size, off := Trim(d, offset);
  }

  /** `bf_consume(infile, op)`. `op.ch` is the command that opened the op;
      the run's commands come from the stream at `pos`. The op's run fields
      are set to `Coalesce` of the run and its other fields are kept; the
      command that ended the run (one of `, . [ ]`, or `None` at end of
      input) is returned unconsumed and the stream is left just after it. */
  method Consume(src: seq<char>, pos: nat, op: Op) returns (r: Op, c: Option<char>, next: nat)
    requires pos <= |src|
    requires IsCommand(op.ch) && op.ch != ',' && op.ch != '.' && op.ch != '\0'
    ensures pos <= next <= |src|
    ensures var n := SplitRun(op.ch, Pending(src, pos));
            r == WithRun(op, Coalesce(n.cmds)) && c == n.c && Pending(src, next) == n.rest
  {
    var c0;
    c0, next := RunStart(src, pos, op.ch);
    var d, idx, offset;
    ghost var done;
    d, idx, offset, c, next, done := ReadRun(src, next, c0);
    SplitRunOf(op.ch, Pending(src, pos), done, c, Pending(src, next));
    var shift, size;
    shift, size, offset := Finish(d, idx, offset, done);
    r := op.(shift := shift, offset := offset, d := d[..], size := size);
  }
}
