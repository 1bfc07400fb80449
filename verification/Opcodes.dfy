/** The edits between two sequences, as a difference algorithm lists them (the non-equal
    opcodes of Python's difflib.SequenceMatcher). The algorithm itself is not modelled: its
    contract is IsDelta. */
module Opcodes {
  datatype Tag = Insert | Replace | Delete

  datatype Op = Op(tag: Tag, i1: nat, i2: nat, j1: nat, j2: nat)

  /** Where edit n begins, in both; after the last edit, the two ends. */
  ghost function Begin<T>(base: seq<T>, theirs: seq<T>, ops: seq<Op>, n: nat): (nat, nat) {
    if n < |ops| then (ops[n].i1, ops[n].j1) else (|base|, |theirs|)
  }

  /** Where edit n - 1 ends. */
  ghost function End(ops: seq<Op>, n: nat): (nat, nat)
    requires n <= |ops|
  {
    if n == 0 then (0, 0) else (ops[n - 1].i2, ops[n - 1].j2)
  }

  ghost predicate OpOk<T>(base: seq<T>, theirs: seq<T>, op: Op) {
    && op.i1 <= op.i2 <= |base| && op.j1 <= op.j2 <= |theirs|
    && (match op.tag
        case Insert => op.i1 == op.i2 && op.j1 < op.j2
        case Delete => op.i1 < op.i2 && op.j1 == op.j2
        case Replace => op.i1 < op.i2 && op.j1 < op.j2 && base[op.i1] != theirs[op.j1])
  }

  ghost predicate OpsOk<T>(base: seq<T>, theirs: seq<T>, ops: seq<Op>) {
    forall n :: 0 <= n < |ops| ==> OpOk(base, theirs, ops[n])
  }

  /** Before edit n, after the one before it, the two sequences agree. */
  ghost predicate SeamOk<T>(base: seq<T>, theirs: seq<T>, ops: seq<Op>, n: nat)
    requires n <= |ops|
  {
    var (i, j) := End(ops, n);
    var (k, l) := Begin(base, theirs, ops, n);
    i <= k <= |base| && j <= l <= |theirs| && base[i..k] == theirs[j..l]
  }

  /** The edits, in order, that turn base into theirs: a difference leaves nothing common in
      a replaced run, so its first element really changes. */
  ghost predicate IsDelta<T>(base: seq<T>, theirs: seq<T>, ops: seq<Op>) {
    && OpsOk(base, theirs, ops)
    && forall n :: 0 <= n <= |ops| ==> SeamOk(base, theirs, ops, n)
  }

  /** With one edit, the sequences agree before and after it. */
  lemma OneEdit<T>(base: seq<T>, theirs: seq<T>, op: Op)
    requires IsDelta(base, theirs, [op])
    ensures OpOk(base, theirs, op) && op.i1 == op.j1
    ensures base == base[..op.i1] + base[op.i1..op.i2] + base[op.i2..]
    ensures theirs == base[..op.i1] + theirs[op.j1..op.j2] + base[op.i2..]
  {
    var ops := [op];
    assert OpOk(base, theirs, ops[0]);
    assert SeamOk(base, theirs, ops, 0) && SeamOk(base, theirs, ops, 1);
    assert base[..op.i1] == base[0..op.i1] == theirs[0..op.j1];
    assert |base[0..op.i1]| == op.i1 && |theirs[0..op.j1]| == op.j1;
    assert base[op.i2..] == base[op.i2..|base|] == theirs[op.j2..|theirs|];
    assert theirs == theirs[0..op.j1] + theirs[op.j1..op.j2] + theirs[op.j2..|theirs|];
  }
}
