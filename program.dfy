/** The program builder and bracket matcher (the first loop of `bf_int`,
    main.c:155-192).

    Ops are appended one at a time (the op array is zero-extended by one op,
    then its `ch` is set). `,` and `.` take no run. For `]` the ops built so
    far are scanned backwards with a bracket count to find the partner `[`,
    and the two are linked through `opInd`; if none is found the build fails.
    Every other op then takes the run that follows. An unmatched `[` is never
    noticed: its `opInd` keeps the 0 the zero-fill gave it. */
module Program {
  import opened Base
  import opened Filter
  import opened Ops
  import opened Runs

  /** "Unbalanced loop brackets" (main.c:184-185). */
  datatype BuildError = Unbalanced

  /** The `ch` fields of `ops`, in order. */
  function Chars(ops: seq<Op>): (r: seq<char>)
    ensures |r| == |ops|
    ensures forall k :: 0 <= k < |ops| ==> r[k] == ops[k].ch
  {
    seq(|ops|, k requires 0 <= k < |ops| => ops[k].ch)
  }

  // ---------------------------------------------------------------------
  // The backward bracket scan.

  /** What one op character adds to the bracket count. */
  function Score(c: char): int
  {
    if c == ']' then 1 else if c == '[' then -1 else 0
  }

  /** The number of `]` minus the number of `[` in `s`. */
  function Excess(s: seq<char>): int
  {
    if s == [] then 0 else Score(s[0]) + Excess(s[1..])
  }

  lemma {:induction false} ExcessAppend(a: seq<char>, b: seq<char>)
    ensures Excess(a + b) == Excess(a) + Excess(b)
  {
    if a == [] {
      assert a + b == b;
    } else {
      assert (a + b)[1..] == a[1..] + b;
      ExcessAppend(a[1..], b);
    }
  }

  /** The scan of main.c:176-181 over the characters `s` of the ops before
      the `]`, from the last one down, with bracket count `bc`: the index at
      which the count first reaches zero, or `None` when the scan runs off
      the front of the array. */
  function Scan(s: seq<char>, bc: int): (r: Option<nat>)
    ensures r.Some? ==> r.value < |s|
  {
    if s == [] then None
    else
      var bc' := bc + Score(s[|s| - 1]);
      if bc' == 0 then Some(|s| - 1) else Scan(s[..|s| - 1], bc')
  }

  /** What the scan finds. Started with count `bc >= 1`, it returns the
      largest index `i` at which `bc` plus the bracket excess of `s[i..]`
      is zero; it fails exactly when that sum stays positive for every
      suffix. */
  lemma ScanMeaning(s: seq<char>, bc: int)
    requires bc >= 1
    ensures Scan(s, bc).Some? ==>
              var i := Scan(s, bc).value;
              && i < |s| && bc + Excess(s[i..]) == 0
              && forall j :: i < j <= |s| ==> bc + Excess(s[j..]) >= 1
    ensures Scan(s, bc).None? <==> forall j :: 0 <= j <= |s| ==> bc + Excess(s[j..]) >= 1
  {
    if Scan(s, bc).Some? {
      ScanFound(s, bc);
    }
    ScanNone(s, bc);
  }

  lemma {:induction false} ScanFound(s: seq<char>, bc: int)
    requires bc >= 1 && Scan(s, bc).Some?
    ensures var i := Scan(s, bc).value;
            && i < |s| && bc + Excess(s[i..]) == 0
            && forall j :: i < j <= |s| ==> bc + Excess(s[j..]) >= 1
  {
    var init := s[..|s| - 1];
    var bc' := bc + Score(s[|s| - 1]);
    var i := Scan(s, bc).value;
    assert s[|s|..] == [];
    if bc' != 0 {
      assert Scan(init, bc') == Scan(s, bc);
      ScanFound(init, bc');
      forall j | i <= j < |s|
        ensures bc + Excess(s[j..]) == bc' + Excess(init[j..])
      {
        ExcessDropLast(s, j);
      }
    } else {
      ExcessDropLast(s, i);
      assert init[i..] == [];
    }
  }

  lemma {:induction false} ScanNone(s: seq<char>, bc: int)
    requires bc >= 1
    ensures Scan(s, bc).None? <==> forall j :: 0 <= j <= |s| ==> bc + Excess(s[j..]) >= 1
  {
    if s != [] {
      var init := s[..|s| - 1];
      var bc' := bc + Score(s[|s| - 1]);
      ExcessDropLast(s, |init|);
      assert init[|init|..] == [];
      if bc' != 0 {
        ScanNone(init, bc');
        forall j | 0 <= j < |s|
          ensures bc + Excess(s[j..]) == bc' + Excess(init[j..])
        {
          ExcessDropLast(s, j);
        }
        assert Excess(s[|s|..]) == 0;
      }
    }
  }

  /** Dropping the last character from the suffixes of `s`. */
  lemma ExcessDropLast(s: seq<char>, j: nat)
    requires j < |s|
    ensures Excess(s[j..]) == Excess(s[..|s| - 1][j..]) + Score(s[|s| - 1])
  {
    var c := s[|s| - 1];
    assert s[j..] == s[..|s| - 1][j..] + [c];
    ExcessAppend(s[..|s| - 1][j..], [c]);
    assert [c][1..] == [];
  }

  /** The partner the scan finds for a `]` appended after `s`: a `[`, the
      nearest one whose enclosed characters are balanced, with no suffix
      between them holding more `[` than `]`. */
  lemma PartnerIsOpen(s: seq<char>)
    ensures Scan(s, 1).Some? ==>
              var i := Scan(s, 1).value;
              && i < |s| && s[i] == '[' && Excess(s[i + 1..]) == 0
              && forall j :: i < j <= |s| ==> Excess(s[j..]) >= 0
    ensures Scan(s, 1).None? <==> forall j :: 0 <= j <= |s| ==> Excess(s[j..]) >= 0
  {
    if Scan(s, 1).Some? {
      PartnerFound(s);
    }
    ScanNone(s, 1);
  }

  /** The found case of `PartnerIsOpen`. */
  lemma PartnerFound(s: seq<char>)
    requires Scan(s, 1).Some?
    ensures var i := Scan(s, 1).value;
            && i < |s| && s[i] == '[' && Excess(s[i + 1..]) == 0
            && forall j :: i < j <= |s| ==> Excess(s[j..]) >= 0
  {
    ScanFound(s, 1);
    var i := Scan(s, 1).value;
    assert 1 + Excess(s[i + 1..]) >= 1;
    assert s[i..][1..] == s[i + 1..];
    assert Excess(s[i..]) == Score(s[i]) + Excess(s[i + 1..]);
  }

  /** `bf_int`'s backward scan for the `]` at index `size` (main.c:176-186). */
  method MatchBracket(ops: seq<Op>, size: nat) returns (found: Option<nat>)
    requires size <= |ops|
    ensures found == Scan(Chars(ops[..size]), 1)
  {
    ghost var s := Chars(ops[..size]);
    var bc := 1;
    var i: int := size;
    assert s[..i] == s;
    while i >= 0 && bc != 0
      invariant -1 <= i <= size
      invariant i >= 0 && bc != 0 ==> Scan(s, 1) == Scan(s[..i], bc)
      invariant i >= 0 && bc == 0 ==> Scan(s, 1) == Some(i)
      invariant i < 0 ==> Scan(s, 1) == None
    {
      if i != 0 {
        assert s[..i][..i - 1] == s[..i - 1];
        i := i - 1;
        bc := bc + Score(ops[i].ch);
      } else {
        i := -1;
      }
    }
    found := if i < 0 then None else Some(i);
  }

  /** The linking step of `bf_int` for the `]` at index `size`
      (main.c:174-190). */
  method LinkInPlace(ops: seq<Op>, size: nat) returns (r: Result<seq<Op>, BuildError>)
    requires size + 1 == |ops|
    ensures r == Link(ops)
  {
    var found := MatchBracket(ops, size);
    if found.None? {
      return Err(Unbalanced);
    }
    var i := found.value;
    ScanFound(Chars(ops[..size]), 1);
    var linked := ops[i := ops[i].(opInd := size)];
    linked := linked[size := linked[size].(opInd := i)];
    return Ok(linked);
  }

  /** Linking the `]` just appended as the last op to its partner: both ops
      record each other's index; without a partner the build fails. */
  function Link(ops: seq<Op>): (r: Result<seq<Op>, BuildError>)
    requires |ops| > 0
    ensures r.Ok? <==> Scan(Chars(ops[..|ops| - 1]), 1).Some?
    ensures r.Ok? ==>
              var size := |ops| - 1;
              var i := Scan(Chars(ops[..size]), 1).value;
              && |r.value| == |ops| && i < size
              && r.value[i] == ops[i].(opInd := size)
              && r.value[size] == ops[size].(opInd := i)
              && forall k :: 0 <= k < |ops| && k != i && k != size ==> r.value[k] == ops[k]
  {
    var size := |ops| - 1;
    PartnerIsOpen(Chars(ops[..size]));
    match Scan(Chars(ops[..size]), 1)
    case None => Err(Unbalanced)
    case Some(i) => Ok(ops[i := ops[i].(opInd := size)][size := ops[size].(opInd := i)])
  }

  // ---------------------------------------------------------------------
  // The build loop as a function.

  /** The ops that take no run, those `strchr(",.", c)` finds: `,`, `.` and
      NUL (main.c:167). */
  predicate TakesNoRun(c: char) { c == ',' || c == '.' || c == '\0' }

  function First(s: seq<char>): Option<char>
  {
    if s == [] then None else Some(s[0])
  }

  function Rest(s: seq<char>): seq<char>
  {
    if s == [] then [] else s[1..]
  }

  /** The op array after appending an op for `x`: zero-extended by one op,
      whose `ch` is then set (main.c:162-164). */
  function AppendOp(ops: seq<Op>, x: char): (r: seq<Op>)
    ensures |r| == |ops| + 1 && r[..|ops|] == ops
    ensures r[|ops|] == Op(x, 0, 0, [], 0, 0, 0)
  {
    Extend(ops, |ops| + 1, ZeroOp)[|ops| := ZeroOp.(ch := x)]
  }

  /** The rest of the build from the op array `ops`, the command `c` just
      read (or end of input) and the commands `rest` still in the stream. */
  function BuildFrom(ops: seq<Op>, c: Option<char>, rest: seq<char>): Result<seq<Op>, BuildError>
    requires c.Some? ==> IsCommand(c.value)
    requires AllCommands(rest)
    decreases |rest| + (if c.Some? then 1 else 0)
  {
    match c
    case None => Ok(ops)
    case Some(x) =>
      var size := |ops|;
      var ops1 := AppendOp(ops, x);
      if TakesNoRun(x) then
        BuildFrom(ops1, First(rest), Rest(rest))
      else
        var ops2 :- if x == ']' then Link(ops1) else Ok(ops1);
        var n := SplitRun(x, rest);
        BuildFrom(ops2[size := WithRun(ops2[size], Coalesce(n.cmds))], n.c, n.rest)
  }

  /** The program `bf_int` builds from the text `src`. Every program it
      builds is well formed and pairs its brackets. */
  function Build(src: seq<char>): (r: Result<seq<Op>, BuildError>)
    ensures r.Ok? ==> WellFormed(r.value) && Paired(r.value)
  {
    var cmds := Commands(src);
    BuildFromWellFormed([], First(cmds), Rest(cmds));
    BuildFromPaired([], First(cmds), Rest(cmds));
    BuildFrom([], First(cmds), Rest(cmds))
  }

  /** One iteration for `,` or `.`: the op is appended and the next command
      is read. */
  lemma BuildFromIo(ops: seq<Op>, x: char, rest: seq<char>, c: Option<char>, rest': seq<char>)
    requires TakesNoRun(x) && AllCommands(rest)
    requires rest == Look(c) + rest' && (c.None? ==> rest' == [])
    ensures AllCommands(rest') && (c.Some? ==> IsCommand(c.value))
    ensures BuildFrom(ops, Some(x), rest) == BuildFrom(AppendOp(ops, x), c, rest')
  {
    if c.Some? {
      assert rest[0] == c.value && rest[1..] == rest';
    }
  }

  /** One iteration for any other command: after linking (for `]`), the op
      takes the run `Consume` reports and the build goes on from the command
      that ended the run. */
  lemma BuildFromRun(ops: seq<Op>, x: char, rest: seq<char>, linked: seq<Op>, op: Op,
                     c: Option<char>, rest': seq<char>)
    requires IsCommand(x) && !TakesNoRun(x) && AllCommands(rest)
    requires (if x == ']' then Link(AppendOp(ops, x)) else Ok(AppendOp(ops, x))) == Ok(linked)
    requires |linked| == |ops| + 1
    requires var n := SplitRun(x, rest);
             op == WithRun(linked[|ops|], Coalesce(n.cmds)) && c == n.c && rest' == n.rest
    ensures AllCommands(rest') && (c.Some? ==> IsCommand(c.value))
    ensures |rest'| + (if c.Some? then 1 else 0) <= |rest|
    ensures BuildFrom(ops, Some(x), rest) == BuildFrom(linked[|ops| := op], c, rest')
  {
    var n := SplitRun(x, rest);
    assert |RunSource(x, rest)| == |n.cmds| + |Look(n.c)| + |n.rest|;
  }

  /** Linking leaves the new op's command in place. */
  lemma LinkedOp(ops: seq<Op>, x: char, linked: seq<Op>)
    requires (if x == ']' then Link(AppendOp(ops, x)) else Ok(AppendOp(ops, x))) == Ok(linked)
    ensures |linked| == |ops| + 1 && linked[|ops|].ch == x
  {
  }

  /** The first loop of `bf_int` (main.c:155-192). */
  method BuildProgram(src: seq<char>) returns (res: Result<seq<Op>, BuildError>)
    ensures res == Build(src)
  {
    var ops: seq<Op> := [];
    var c, pos := GetBfChar(src, 0);
    assert src[0..] == src;
    var size := 0;
    while c.Some?
      invariant pos <= |src| && size == |ops|
      invariant c.Some? ==> IsCommand(c.value)
      invariant c.None? ==> Pending(src, pos) == []
      invariant BuildFrom(ops, c, Pending(src, pos)) == Build(src)
      decreases |Pending(src, pos)| + (if c.Some? then 1 else 0)
    {
      var x := c.value;
      ghost var rest := Pending(src, pos);
      ghost var before := ops;
      ops := Extend(ops, size + 1, ZeroOp);
      ops := ops[size := ops[size].(ch := x)];
      assert ops == AppendOp(before, x);
      if TakesNoRun(x) {
        c, pos := GetBfChar(src, pos);
        BuildFromIo(before, x, rest, c, Pending(src, pos));
        size := size + 1;
        continue;
      }
      if x == ']' {
        var linked := LinkInPlace(ops, size);
        if linked.Err? {
          return linked;
        }
        ops := linked.value;
      }
      LinkedOp(before, x, ops);
      var op;
      op, c, pos := Consume(src, pos, ops[size]);
      BuildFromRun(before, x, rest, ops, op, c, Pending(src, pos));
      ops := ops[size := op];
      size := size + 1;
    }
    return Ok(ops);
  }

  // ---------------------------------------------------------------------
  // What every built program satisfies.

  /** The shape the later passes rely on: every op is a command, every link
      is an index into the array, every run's `size` fits its buffer, a
      `[` whose window starts at or left of the cursor has the entry cell
      inside its buffer, and no op is marked linear yet. */
  predicate WellFormed(ops: seq<Op>)
  {
    forall k :: 0 <= k < |ops| ==> OpWellFormed(ops[k], |ops|)
  }

  predicate OpWellFormed(op: Op, n: nat)
  {
    && IsCommand(op.ch) && op.opInd < n && op.size <= |op.d| && op.linear == 0
    && (op.ch == '[' && op.offset <= 0 ==> -op.offset < |op.d|)
  }

  /** `ops` is well formed except at `j`, an op whose run is not yet read
      but whose command, link and mark already are. */
  predicate WellFormedBut(ops: seq<Op>, j: nat)
  {
    && j < |ops| && IsCommand(ops[j].ch) && ops[j].opInd < |ops| && ops[j].linear == 0
    && forall k :: 0 <= k < |ops| && k != j ==> OpWellFormed(ops[k], |ops|)
  }

  lemma AppendOpWellFormed(ops: seq<Op>, x: char)
    requires WellFormed(ops) && IsCommand(x)
    ensures WellFormedBut(AppendOp(ops, x), |ops|)
    ensures TakesNoRun(x) ==> WellFormed(AppendOp(ops, x))
  {
    var ops1 := AppendOp(ops, x);
    forall k | 0 <= k < |ops| ensures OpWellFormed(ops1[k], |ops1|) {
      assert ops1[k] == ops[k];
    }
  }

  lemma LinkWellFormed(ops: seq<Op>)
    requires |ops| > 0 && WellFormedBut(ops, |ops| - 1) && Link(ops).Ok?
    ensures WellFormedBut(Link(ops).value, |ops| - 1)
  {
    var r := Link(ops).value;
    forall k | 0 <= k < |r| && k != |ops| - 1 ensures OpWellFormed(r[k], |r|) {
      assert OpWellFormed(ops[k], |ops|);
    }
  }

  lemma WithRunWellFormed(ops: seq<Op>, k: nat, run: Run)
    requires WellFormedBut(ops, k)
    requires run.size <= |run.d| && (run.offset <= 0 ==> -run.offset < |run.d|)
    ensures WellFormed(ops[k := WithRun(ops[k], run)])
  {
    var r := ops[k := WithRun(ops[k], run)];
    forall j | 0 <= j < |r| ensures OpWellFormed(r[j], |r|) {
      if j != k {
        assert r[j] == ops[j];
      }
    }
  }

  lemma {:induction false} BuildFromWellFormed(ops: seq<Op>, c: Option<char>, rest: seq<char>)
    requires c.Some? ==> IsCommand(c.value)
    requires AllCommands(rest) && WellFormed(ops)
    ensures BuildFrom(ops, c, rest).Ok? ==> WellFormed(BuildFrom(ops, c, rest).value)
    decreases |rest| + (if c.Some? then 1 else 0), 1
  {
    if c.Some? {
      var x := c.value;
      if TakesNoRun(x) {
        AppendOpWellFormed(ops, x);
        BuildFromWellFormed(AppendOp(ops, x), First(rest), Rest(rest));
      } else {
        RunOpWellFormed(ops, x, rest);
      }
    }
  }

  /** The step of `BuildFromWellFormed` for an op that takes a run. */
  lemma {:induction false} RunOpWellFormed(ops: seq<Op>, x: char, rest: seq<char>)
    requires IsCommand(x) && !TakesNoRun(x)
    requires AllCommands(rest) && WellFormed(ops)
    ensures BuildFrom(ops, Some(x), rest).Ok? ==> WellFormed(BuildFrom(ops, Some(x), rest).value)
    decreases |rest| + 1, 0
  {
    var size := |ops|;
    var ops1 := AppendOp(ops, x);
    AppendOpWellFormed(ops, x);
    var linked := if x == ']' then Link(ops1) else Ok(ops1);
    if linked.Ok? {
      var ops2 := linked.value;
      if x == ']' {
        LinkWellFormed(ops1);
      }
      assert |ops2| == size + 1 && WellFormedBut(ops2, size);
      var n := SplitRun(x, rest);
      var op := WithRun(ops2[size], Coalesce(n.cmds));
      BuildFromRun(ops, x, rest, ops2, op, n.c, n.rest);
      WithRunWellFormed(ops2, size, Coalesce(n.cmds));
      BuildFromWellFormed(ops2[size := op], n.c, n.rest);
    }
  }

  // ---------------------------------------------------------------------
  // Bracket pairing.

  /** Every `]` is linked to an earlier `[` that is linked back to it, and
      the ops strictly between the two hold as many `[` as `]`. */
  predicate Paired(ops: seq<Op>)
  {
    PairedBelow(ops, |ops|)
  }

  /** The `]` ops below index `n` are paired. */
  predicate PairedBelow(ops: seq<Op>, n: nat)
    requires n <= |ops|
  {
    forall k :: 0 <= k < n && ops[k].ch == ']' ==> Closes(ops, k)
  }

  /** The `]` at `k` closes the `[` it is linked to. */
  predicate Closes(ops: seq<Op>, k: nat)
    requires k < |ops|
  {
    var p := ops[k].opInd;
    && p < k && ops[p].ch == '[' && ops[p].opInd == k
    && Excess(Chars(ops)[p + 1..k]) == 0
  }

  /** Appending an op keeps every earlier `]` paired. */
  lemma AppendOpPaired(ops: seq<Op>, x: char)
    requires Paired(ops)
    ensures PairedBelow(AppendOp(ops, x), |ops|)
    ensures x != ']' ==> Paired(AppendOp(ops, x))
  {
    var r := AppendOp(ops, x);
    assert Chars(r)[..|ops|] == Chars(ops);
    forall k | 0 <= k < |ops| && r[k].ch == ']' ensures Closes(r, k) {
      var p := ops[k].opInd;
      assert Closes(ops, k);
      assert Chars(r)[p + 1..k] == Chars(ops)[p + 1..k];
    }
  }

  /** Linking the `]` just appended pairs it, and leaves every earlier `]`
      paired: the `[` the scan finds is not the partner of an earlier `]`,
      since the ops after that `]` would then hold one `[` more than `]`. */
  lemma LinkPaired(ops: seq<Op>)
    requires |ops| > 0 && ops[|ops| - 1].ch == ']' && PairedBelow(ops, |ops| - 1)
    requires Link(ops).Ok?
    ensures Paired(Link(ops).value)
  {
    var r := Link(ops).value;
    forall k | 0 <= k < |r| && r[k].ch == ']' ensures Closes(r, k) {
      LinkPairedAt(ops, k);
    }
  }

  /** Linking changes no op's command. */
  lemma LinkChars(ops: seq<Op>)
    requires |ops| > 0 && Link(ops).Ok?
    ensures Chars(Link(ops).value) == Chars(ops)
  {
  }

  /** One `]` of the linked array is paired. */
  lemma LinkPairedAt(ops: seq<Op>, k: nat)
    requires |ops| > 0 && ops[|ops| - 1].ch == ']' && PairedBelow(ops, |ops| - 1)
    requires Link(ops).Ok? && k < |ops| && Link(ops).value[k].ch == ']'
    ensures Closes(Link(ops).value, k)
  {
    if k < |ops| - 1 {
      assert ops[k].ch == ']' by {
        LinkChars(ops);
        assert Chars(Link(ops).value)[k] == Chars(ops)[k];
      }
      LinkKeepsClosed(ops, k);
    } else {
      LinkClosesNew(ops);
    }
  }

  /** The `]` just appended closes the `[` the scan found. */
  lemma LinkClosesNew(ops: seq<Op>)
    requires |ops| > 0 && Link(ops).Ok?
    ensures Closes(Link(ops).value, |ops| - 1)
  {
    var size := |ops| - 1;
    var s := Chars(ops[..size]);
    var i := Scan(s, 1).value;
    PartnerFound(s);
    LinkChars(ops);
    assert Chars(ops)[..size] == s;
    assert Chars(Link(ops).value)[i + 1..size] == s[i + 1..];
  }

  /** An earlier `]` keeps its partner: the `[` the scan found is not
      it. */
  lemma LinkKeepsClosed(ops: seq<Op>, k: nat)
    requires |ops| > 0 && Link(ops).Ok? && k < |ops| - 1 && ops[k].ch == ']' && Closes(ops, k)
    ensures Closes(Link(ops).value, k)
  {
    var s := Chars(ops[..|ops| - 1]);
    var i := Scan(s, 1).value;
    var p := ops[k].opInd;
    assert p != i && k != i by {
      PartnerAt(s, k + 1);
      assert s[i] == ops[i].ch && s[k] == ops[k].ch;
      ClosedNotScanned(ops, s, i, k);
    }
    LinkKeepsPair(ops, i, k);
  }

  /** Linking at `i` leaves a `]` at `k` closed when neither it nor its
      partner is at `i`. */
  lemma LinkKeepsPair(ops: seq<Op>, i: nat, k: nat)
    requires |ops| > 0 && Link(ops).Ok? && Scan(Chars(ops[..|ops| - 1]), 1) == Some(i)
    requires k < |ops| - 1 && k != i && ops[k].opInd != i && Closes(ops, k)
    ensures Closes(Link(ops).value, k)
  {
    var r := Link(ops).value;
    var p := ops[k].opInd;
    assert r[k] == ops[k] && r[p] == ops[p];
    LinkChars(ops);
    ClosesKept(ops, r, k);
  }

  /** A `]` stays closed in an array with the same commands in which it and
      its partner are unchanged. */
  lemma ClosesKept(ops: seq<Op>, r: seq<Op>, k: nat)
    requires k < |ops| == |r| && Chars(r) == Chars(ops) && Closes(ops, k)
    requires r[k] == ops[k] && r[ops[k].opInd] == ops[ops[k].opInd]
    ensures Closes(r, k)
  {
  }

  /** The `[` that an earlier `]` at `k` closes is not the one the scan
      for the new `]` stops at. */
  lemma ClosedNotScanned(ops: seq<Op>, s: seq<char>, i: nat, k: nat)
    requires |ops| > 0 && s == Chars(ops[..|ops| - 1])
    requires i < |s| && Excess(s[i + 1..]) == 0
    requires i < k + 1 <= |s| ==> Excess(s[k + 1..]) >= 0
    requires k < |ops| - 1 && ops[k].ch == ']' && Closes(ops, k)
    ensures ops[k].opInd != i
  {
    if ops[k].opInd == i {
      assert s[i + 1..k] == Chars(ops)[i + 1..k];
      assert s[k] == ']';
      NotRelinked(s, i, k);
      assert false;
    }
  }

  /** What the scan's partner `i` satisfies, at a given suffix start `j`. */
  lemma PartnerAt(s: seq<char>, j: nat)
    requires Scan(s, 1).Some?
    ensures var i := Scan(s, 1).value;
            && i < |s| && s[i] == '[' && Excess(s[i + 1..]) == 0
            && (i < j <= |s| ==> Excess(s[j..]) >= 0)
  {
    PartnerIsOpen(s);
  }

  /** A `]` at `k` closing the stretch after `i` leaves a suffix with more
      `[` than `]`, so the scan cannot have stopped at `i`. */
  lemma NotRelinked(s: seq<char>, i: nat, k: nat)
    requires i < k < |s| && s[k] == ']' && Excess(s[i + 1..k]) == 0
    ensures Excess(s[i + 1..]) != 0 || Excess(s[k + 1..]) < 0
  {
    assert s[i + 1..] == s[i + 1..k] + s[k..];
    ExcessAppend(s[i + 1..k], s[k..]);
    assert s[k..][1..] == s[k + 1..];
  }

  /** Giving an op its run leaves every link and command in place. */
  lemma WithRunPaired(ops: seq<Op>, k: nat, run: Run)
    requires k < |ops| && Paired(ops)
    ensures Paired(ops[k := WithRun(ops[k], run)])
  {
    var r := ops[k := WithRun(ops[k], run)];
    assert Chars(r) == Chars(ops);
    forall j | 0 <= j < |r| && r[j].ch == ']' ensures Closes(r, j) {
      assert Closes(ops, j);
    }
  }

  lemma {:induction false} BuildFromPaired(ops: seq<Op>, c: Option<char>, rest: seq<char>)
    requires c.Some? ==> IsCommand(c.value)
    requires AllCommands(rest) && Paired(ops)
    ensures BuildFrom(ops, c, rest).Ok? ==> Paired(BuildFrom(ops, c, rest).value)
    decreases |rest| + (if c.Some? then 1 else 0), 1
  {
    if c.Some? {
      var x := c.value;
      if TakesNoRun(x) {
        AppendOpPaired(ops, x);
        BuildFromPaired(AppendOp(ops, x), First(rest), Rest(rest));
      } else {
        RunOpPaired(ops, x, rest);
      }
    }
  }

  /** The step of `BuildFromPaired` for an op that takes a run. */
  lemma {:induction false} RunOpPaired(ops: seq<Op>, x: char, rest: seq<char>)
    requires IsCommand(x) && !TakesNoRun(x)
    requires AllCommands(rest) && Paired(ops)
    ensures BuildFrom(ops, Some(x), rest).Ok? ==> Paired(BuildFrom(ops, Some(x), rest).value)
    decreases |rest| + 1, 0
  {
    var size := |ops|;
    var ops1 := AppendOp(ops, x);
    AppendOpPaired(ops, x);
    var linked := if x == ']' then Link(ops1) else Ok(ops1);
    if linked.Ok? {
      var ops2 := linked.value;
      if x == ']' {
        LinkPaired(ops1);
      }
      assert |ops2| == size + 1 && Paired(ops2);
      var n := SplitRun(x, rest);
      var op := WithRun(ops2[size], Coalesce(n.cmds));
      BuildFromRun(ops, x, rest, ops2, op, n.c, n.rest);
      WithRunPaired(ops2, size, Coalesce(n.cmds));
      BuildFromPaired(ops2[size := op], n.c, n.rest);
    }
  }
}
