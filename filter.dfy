/** The instruction filter (`get_bf_char`): the program text is read as a
    stream, every byte that is not one of the eight commands is skipped, and
    end of input is reported as `None` (C's `EOF`). The test is
    `strchr("<>+-.,[]", c)`, which also finds the string's terminating NUL,
    so a 0 byte in the text is kept like a command.

    The stream is the text `src` and a read position `pos`; a read returns the
    command found and the position just after it. */
module Filter {
  import opened Base

  /** The characters `strchr("<>+-.,[]", c)` finds: the eight commands and
      the NUL that ends the string. */
  predicate IsCommand(c: char)
  {
    c == '<' || c == '>' || c == '+' || c == '-' || c == '.' || c == ',' || c == '[' || c == ']'
    || c == '\0'
  }

  predicate AllCommands(s: seq<char>)
  {
    forall k :: 0 <= k < |s| ==> IsCommand(s[k])
  }

  /** The commands of `s`, in order: the reference meaning of "skip every
      other byte". */
  function Commands(s: seq<char>): (r: seq<char>)
    ensures |r| <= |s| && AllCommands(r)
  {
    if s == [] then []
    else if IsCommand(s[0]) then [s[0]] + Commands(s[1..])
    else Commands(s[1..])
  }

  /** The commands of `src` from `pos` on: what the stream still yields. */
  function Pending(src: seq<char>, pos: nat): seq<char>
    requires pos <= |src|
  {
    Commands(src[pos..])
  }

  lemma PendingStep(src: seq<char>, pos: nat)
    requires pos < |src|
    ensures Pending(src, pos) ==
            (if IsCommand(src[pos]) then [src[pos]] else []) + Pending(src, pos + 1)
  {
    assert src[pos..][1..] == src[pos + 1..];
  }

  /** `get_bf_char`: the next command of the stream, or `None` at end of
      input. Every byte passed over on the way is a non-command. */
  method GetBfChar(src: seq<char>, pos: nat) returns (c: Option<char>, next: nat)
    requires pos <= |src|
    ensures pos <= next <= |src|
    ensures c.None? ==> next == |src| && Pending(src, pos) == []
    ensures c.Some? ==> pos < next && src[next - 1] == c.value && IsCommand(c.value)
    ensures forall k :: pos <= k < next && (c.Some? ==> k < next - 1) ==> !IsCommand(src[k])
    ensures Pending(src, pos) == (if c.Some? then [c.value] else []) + Pending(src, next)
  {
    next := pos;
    while next < |src| && !IsCommand(src[next])
      invariant pos <= next <= |src|
      invariant forall k :: pos <= k < next ==> !IsCommand(src[k])
      invariant Pending(src, pos) == Pending(src, next)
    {
      PendingStep(src, next);
      next := next + 1;
    }
    if next == |src| {
      c := None;
    } else {
      PendingStep(src, next);
      c := Some(src[next]);
      next := next + 1;
    }
  }

  /** Filtering distributes over concatenation: the commands of a text are
      those of its first part followed by those of the rest. */
  lemma {:induction false} CommandsSplit(a: seq<char>, b: seq<char>)
    ensures Commands(a + b) == Commands(a) + Commands(b)
  {
    if a == [] {
      assert a + b == b;
    } else {
      assert (a + b)[1..] == a[1..] + b;
      CommandsSplit(a[1..], b);
    }
  }

  /** Filtering a filtered text changes nothing. */
  lemma {:induction false} CommandsIdempotent(s: seq<char>)
    ensures Commands(Commands(s)) == Commands(s)
  {
    if s != [] {
      CommandsIdempotent(s[1..]);
      if IsCommand(s[0]) {
        assert ([s[0]] + Commands(s[1..]))[1..] == Commands(s[1..]);
      }
    }
  }
}
