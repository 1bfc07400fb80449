/** When the reader of the perf-JIT log (overlay/arkweb/chromium_ext/v8/parse-jitcode.cc)
    reads beyond the copied mapping, whatever the mapping holds: it trusts the lengths it
    finds, and looks for the terminator before it asks where it is. */
module PerfJitOverrun {
  import opened Bytes
  import opened Options
  import opened PerfJitLog

  // ---- One record --------------------------------------------------------------

  /** The record at p names this process and this code number. */
  predicate Expected(m: seq<Byte>, p: nat, pid: U32, id: U64)
    requires p + LOAD_SIZE <= |m|
  {
    Field(m, p + 16, 4) == pid && Field(m, p + 48, 8) == id
  }

  /** No NUL ends the name before the mapping does. */
  ghost predicate NameOverruns(m: seq<Byte>, p: nat) {
    forall k :: p + LOAD_SIZE <= k < |m| ==> m[k] != 0
  }

  /** The code that follows the name is longer than what is left. */
  ghost predicate CodeOverruns(m: seq<Byte>, p: nat)
    requires p + LOAD_SIZE <= |m|
  {
    exists z :: p + LOAD_SIZE <= z < |m| && NameEnds(m, p, z) && z + 1 + Field(m, p + 40, 8) > |m|
  }

  ghost predicate NameEnds(m: seq<Byte>, p: nat, z: nat)
    requires z < |m|
  {
    m[z] == 0 && forall k :: p + LOAD_SIZE <= k < z ==> m[k] != 0
  }

  /** What is left from q on is too short for the terminator, and does not differ from it. */
  ghost predicate EndsTooSoon(m: seq<Byte>, q: nat) {
    q + |TERMINATOR| > |m| && forall k :: q <= k < |m| ==> m[k] == TERMINATOR[k - q]
  }

  /** Reading the record at p, and looking behind it, goes beyond the mapping. */
  ghost predicate Overruns(m: seq<Byte>, p: nat, pid: U32, id: U64) {
    if p + LOAD_SIZE > |m| then p + 20 > |m| || Field(m, p + 16, 4) == pid
    else
      && Expected(m, p, pid, id)
      && (NameOverruns(m, p) || CodeOverruns(m, p) || EndsTooSoon(m, p + Field(m, p + 4, 4)))
  }

  lemma {:induction false} ComparedBeyond(m: seq<Byte>, q: nat, k: nat)
    requires k <= |TERMINATOR|
    ensures SameString(m, q, TERMINATOR, k).None?
        <==> q + |TERMINATOR| > |m| && k < |TERMINATOR| && forall j :: q + k <= j < |m| ==> m[j] == TERMINATOR[j - q]
    decreases |TERMINATOR| - k
  {
    if k < |TERMINATOR| && q + k < |m| && m[q + k] == TERMINATOR[k] {
      ComparedBeyond(m, q, k + 1);
    }
  }

  /** The reader leaves the mapping in its round at p exactly when the record there overruns. */
  lemma RoundOverruns(m: seq<Byte>, p: nat, pid: U32, id: U64)
    ensures Overruns(m, p, pid, id)
        <==> var piece := PieceAt(m, p, pid, id);
             piece.Overrun? || (piece.Got? && SameString(m, piece.next, TERMINATOR, 0).None?)
  {
    if p + LOAD_SIZE <= |m| {
      var z := Nul(m, p + LOAD_SIZE);
      ComparedBeyond(m, p + Field(m, p + 4, 4), 0);
      assert z < |m| ==> NameEnds(m, p, z);
      hide Field, Nul, SameString;
      forall y | p + LOAD_SIZE <= y < |m| && NameEnds(m, p, y) ensures y == z {
      }
    }
  }

  // ---- The chain of records ------------------------------------------------------

  /** The reader accepts the record at p and goes on to what is behind it. */
  function GoesOn(m: seq<Byte>, p: nat, pid: U32, id: U64): Option<nat> {
    var piece := PieceAt(m, p, pid, id);
    if piece.Got? && SameString(m, piece.next, TERMINATOR, 0) == Some(false) && piece.next <= SHM_SIZE
    then Some(piece.next) else None
  }

  /** Where the reader's n-th further round begins, if it gets there. */
  ghost function Round(m: seq<Byte>, at: nat, pid: U32, id: U64, n: nat): Option<nat> {
    if n == 0 then Some(at)
    else
      var p := Round(m, at, pid, id, n - 1);
      if p.None? then None else GoesOn(m, p.value, pid, (id + n - 1) % TWO64)
  }

  lemma {:induction false} RoundsFromNext(m: seq<Byte>, at: nat, pid: U32, id: U64, n: nat)
    ensures var next := GoesOn(m, at, pid, id);
            Round(m, at, pid, id, n + 1) == if next.None? then None else Round(m, next.value, pid, (id + 1) % TWO64, n)
  {
    hide GoesOn;
    if n == 0 {
      assert Round(m, at, pid, id, 0) == Some(at);
    } else {
      RoundsFromNext(m, at, pid, id, n - 1);
      NumberOn(id, n - 1);
    }
  }

  ghost predicate OverrunsAt(m: seq<Byte>, at: nat, pid: U32, id: U64, n: nat) {
    Round(m, at, pid, id, n).Some? && Overruns(m, Round(m, at, pid, id, n).value, pid, (id + n) % TWO64)
  }

  /** The reader reads beyond an arbitrary copied mapping exactly when some record that it
      gets to overruns: its fixed part, its name, its code, or the look for the terminator
      behind it. */
  lemma {:induction false} ReadOverruns(m: seq<Byte>, at: nat, pid: U32, id: U64, blocks: seq<Block>)
    ensures Read(m, at, pid, id, blocks).OutOfBounds? <==> exists n :: OverrunsAt(m, at, pid, id, n)
    decreases |m| - at + (if NextIs(m, at, id) then 1 else 0)
  {
    RoundOverruns(m, at, pid, id);
    assert Round(m, at, pid, id, 0) == Some(at);
    hide Overruns, Round, SameString, PieceAt;
    if OverrunsAt(m, at, pid, id, 0) {
    } else if GoesOn(m, at, pid, id).Some? {
      var piece := PieceAt(m, at, pid, id);
      ReadOverruns(m, piece.next, pid, (id + 1) % TWO64, blocks + [piece.block]);
      LaterRounds(m, at, pid, id, piece.next, (id + 1) % TWO64);
    } else {
      NoLaterRound(m, at, pid, id);
    }
  }

  lemma OneRoundOn(m: seq<Byte>, at: nat, pid: U32, id: U64, next: nat, after: U64, n: nat)
    requires GoesOn(m, at, pid, id) == Some(next) && after == (id + 1) % TWO64
    ensures OverrunsAt(m, at, pid, id, n + 1) <==> OverrunsAt(m, next, pid, after, n)
  {
    hide Overruns, GoesOn, Round;
    RoundsFromNext(m, at, pid, id, n);
    NumberOn(id, n);
  }

  lemma NumberOn(id: U64, n: nat)
    ensures ((id + 1) % TWO64 + n) % TWO64 == (id + (n + 1)) % TWO64
  {
  }

  lemma LaterRounds(m: seq<Byte>, at: nat, pid: U32, id: U64, next: nat, after: U64)
    requires GoesOn(m, at, pid, id) == Some(next) && after == (id + 1) % TWO64
    requires !OverrunsAt(m, at, pid, id, 0)
    ensures (exists n :: OverrunsAt(m, at, pid, id, n)) <==> exists n :: OverrunsAt(m, next, pid, after, n)
  {
    hide OverrunsAt, GoesOn;
    if n: nat :| OverrunsAt(m, at, pid, id, n) {
      OneRoundOn(m, at, pid, id, next, after, n - 1);
    }
    if n: nat :| OverrunsAt(m, next, pid, after, n) {
      OneRoundOn(m, at, pid, id, next, after, n);
    }
  }

  lemma NoLaterRound(m: seq<Byte>, at: nat, pid: U32, id: U64)
    requires GoesOn(m, at, pid, id).None?
    ensures forall n: nat :: n > 0 ==> Round(m, at, pid, id, n).None?
  {
    forall n: nat | n > 0 ensures Round(m, at, pid, id, n).None? {
      RoundsFromNext(m, at, pid, id, n - 1);
    }
  }

  /** The same for a whole copied mapping, from where its header puts the reader: that may
      be anywhere, and beyond the mapping already. */
  lemma MappingOverruns(m: seq<Byte>, pid: U32)
    requires |m| == SHM_SIZE
    ensures ReadMapping(m, pid).OutOfBounds?
        <==> var start := GetHeader(m, pid);
             start.Some? && exists n :: OverrunsAt(m, start.value, pid, 0, n)
  {
    hide OverrunsAt, Read;
    if GetHeader(m, pid).Some? {
      ReadOverruns(m, GetHeader(m, pid).value, pid, 0, []);
    }
  }

  // ---- An input ------------------------------------------------------------------

  /** Ones everywhere, but for the length of the header and a code number of zero. */
  function Ones(): (m: seq<Byte>)
    ensures |m| == SHM_SIZE
    ensures forall i :: 0 <= i < SHM_SIZE ==> m[i] == OneAt(i)
  {
    seq(SHM_SIZE, i requires 0 <= i < SHM_SIZE => OneAt(i))
  }

  function OneAt(i: nat): Byte {
    if 8 <= i < 12 then Little(HEADER_SIZE, 4)[i - 8]
    else if HEADER_SIZE + 48 <= i < HEADER_SIZE + 56 then 0
    else 1
  }

  lemma FourOnes(m: seq<Byte>, at: nat)
    requires at + 4 <= |m| && forall i :: at <= i < at + 4 ==> m[i] == 1
    ensures Field(m, at, 4) == Value([1, 1, 1, 1])
  {
    assert m[at..at + 4] == [1, 1, 1, 1];
  }

  lemma EightZeros(m: seq<Byte>, at: nat)
    requires at + 8 <= |m| && forall i :: at <= i < at + 8 ==> m[i] == 0
    ensures Field(m, at, 8) == 0
  {
    assert forall i :: 0 <= i < 8 ==> Little(0, 8)[i] == 0;
    assert m[at..at + 8] == Little(0, 8);
    LittleValue(0, 8);
  }

  /** A mapping whose header is accepted and has the right length, and whose first record has
      a name without end: reading it as a whole goes beyond it. */
  lemma NameWithoutEnd()
    ensures exists m: seq<Byte>, pid: U32 ::
      && |m| == SHM_SIZE && GetHeader(m, pid) == Some(HEADER_SIZE)
      && NameOverruns(m, HEADER_SIZE) && ReadMapping(m, pid).OutOfBounds?
  {
    hide Ones, Field, Value, Read, Little, NameOverruns, ReadMapping;
    var m := Ones();
    ValueRange([1, 1, 1, 1]);
    Powers();
    var pid: U32 := Value([1, 1, 1, 1]);
    OnesFields(m);
    assert Expected(m, HEADER_SIZE, pid, 0) && GetHeader(m, pid) == Some(HEADER_SIZE);
    hide Expected;
    FirstNameOverruns(m, HEADER_SIZE, pid, 0);
    HeaderFirst(m, pid, HEADER_SIZE);
  }

  lemma HeaderFirst(m: seq<Byte>, pid: U32, start: nat)
    requires |m| == SHM_SIZE && GetHeader(m, pid) == Some(start)
    ensures ReadMapping(m, pid) == Read(m, start, pid, 0, [])
  {
    hide Read;
  }

  lemma OnesFields(m: seq<Byte>)
    requires m == Ones()
    ensures Field(m, 8, 4) == HEADER_SIZE && Field(m, HEADER_SIZE + 48, 8) == 0
    ensures Field(m, 20, 4) == Value([1, 1, 1, 1]) == Field(m, HEADER_SIZE + 16, 4)
    ensures NameOverruns(m, HEADER_SIZE)
  {
    hide Field, Value, Little;
    HeaderLength(m);
    FourOnes(m, 20);
    FourOnes(m, HEADER_SIZE + 16);
    EightZeros(m, HEADER_SIZE + 48);
  }

  lemma HeaderLength(m: seq<Byte>)
    requires |m| == SHM_SIZE && forall i :: 8 <= i < 12 ==> m[i] == OneAt(i)
    ensures Field(m, 8, 4) == HEADER_SIZE
  {
    hide Little, Field;
    assert m[8..12] == Little(HEADER_SIZE, 4);
    Powers();
    FieldSpelt(m, 8, HEADER_SIZE, 4);
  }

  lemma FirstNameOverruns(m: seq<Byte>, at: nat, pid: U32, id: U64)
    requires at + LOAD_SIZE <= |m| && Expected(m, at, pid, id) && NameOverruns(m, at)
    ensures Read(m, at, pid, id, []).OutOfBounds?
  {
    hide Read, Expected, NameOverruns, CodeOverruns, EndsTooSoon;
    assert OverrunsAt(m, at, pid, id, 0);
    ReadOverruns(m, at, pid, id, []);
  }
}
