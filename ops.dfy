/** One element of the built program (`struct bf_op`).

    `ch` is the command that opened the op: `,` and `.` carry nothing else;
    `[` and `]` carry the run that follows them; an op whose `ch` is one of
    `+ - < >` is a run that starts the program or follows `,` or `.`.

    The run is the delta buffer `d` (the whole allocated buffer, which may be
    longer than the `size` cells in use once trimming has shortened it), the
    tape position of `d[0]` relative to the cursor at entry (`offset`) and the
    net cursor move (`shift`). `opInd` links a bracket to its partner and
    `linear` is the per-iteration decrement the optimiser found, or 0. */
module Ops {

  datatype Op = Op(ch: char, shift: int, offset: int, d: seq<int>, size: nat,
                   opInd: nat, linear: int)

  /** An op as `zalloc` leaves it: every field zero, no delta buffer. */
  const ZeroOp: Op := Op('\0', 0, 0, [], 0, 0, 0)

  /** The delta a window adds to the cell at `p` (relative to the cursor at
      entry): `d[p - offset]` inside the `size` cells in use, 0 outside. */
  function Delta(d: seq<int>, size: nat, offset: int, p: int): int
    requires size <= |d|
  {
    if offset <= p < offset + size then d[p - offset] else 0
  }
}
