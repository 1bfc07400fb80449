/** The perf-JIT log: overlay/arkweb/chromium_ext/v8/ohos-perf-jit.cc appends records to a
    shared mapping, overlay/arkweb/chromium_ext/v8/parse-jitcode.cc reads them back. Each
    record is followed by a terminator that the next record overwrites. */
module PerfJitLog {
  import opened Bytes
  import opened Options

  const SHM_SIZE := 100 * 1024 * 1024
  const HEADER_SIZE := 40
  const LOAD_SIZE := 56
  const K_LOAD := 0
  const MAGIC := 0x4A695444
  const TWO32 := 0x1_0000_0000
  const TWO64 := 0x1_0000_0000_0000_0000
  const TERMINATOR: seq<Byte> := [0x4A, 0x49, 0x54, 0x23, 0x45, 0x4E, 0x44, 0]  // "JIT#END", NUL

  type U32 = n: nat | n < 0x1_0000_0000
  type U64 = n: nat | n < 0x1_0000_0000_0000_0000

  /** One piece of generated code to be logged, with the clock and thread of the call. */
  datatype Entry = Entry(address: U64, code: seq<Byte>, name: seq<Byte>, time: U64, thread: U32)

  function RecordSize(e: Entry): nat { LOAD_SIZE + |e.name| + 1 + |e.code| }

  predicate Loggable(e: Entry) { RecordSize(e) < TWO32 }

  // ---- Record layout ---------------------------------------------------------

  function HeaderBytes(pid: U32, machine: U32, time: U64): (s: seq<Byte>)
    ensures |s| == HEADER_SIZE
  {
    Little(MAGIC, 4) + Little(1, 4) + Little(HEADER_SIZE, 4) + Little(machine, 4) + Little(0xDEADBEEF, 4)
    + Little(pid, 4) + Little(time, 8) + Little(0, 8)
  }

  function LoadBytes(e: Entry, pid: U32, id: nat): (s: seq<Byte>)
    ensures |s| == LOAD_SIZE
  {
    Little(K_LOAD, 4) + Little(RecordSize(e), 4) + Little(e.time, 8) + Little(pid, 4) + Little(e.thread, 4)
    + Little(e.address, 8) + Little(e.address, 8) + Little(|e.code|, 8) + Little(id, 8)
  }

  function RecordBytes(e: Entry, pid: U32, id: nat): (s: seq<Byte>)
    ensures |s| == RecordSize(e)
  {
    LoadBytes(e, pid, id) + e.name + [0] + e.code
  }

  // ---- Writer as a function --------------------------------------------------

  /** The mapping, the write position and the running code number. */
  datatype Log = Log(mem: seq<Byte>, marker: nat, index: nat)

  predicate HasEnoughMemory(marker: nat, size: nat) { marker + size < SHM_SIZE }

  function WriteBytes(l: Log, bytes: seq<Byte>): (r: Log)
    requires |l.mem| == SHM_SIZE
    ensures |r.mem| == SHM_SIZE
  {
    if !HasEnoughMemory(l.marker, |bytes|) then l
    else l.(mem := l.mem[..l.marker] + bytes + l.mem[l.marker + |bytes|..], marker := l.marker + |bytes|)
  }

  predicate Fits(l: Log, e: Entry) { HasEnoughMemory(l.marker, RecordSize(e) + |TERMINATOR|) }

  /** A record that fits replaces the terminator and what follows it; one that does not is
      dropped, but uses up its code number all the same. */
  function WriteEntry(l: Log, pid: U32, e: Entry): (r: Log)
    requires |l.mem| == SHM_SIZE
    ensures |r.mem| == SHM_SIZE
  {
    if !Fits(l, e) then l.(index := l.index + 1)
    else
      var s := RecordBytes(e, pid, l.index);
      Log(l.mem[..l.marker] + s + TERMINATOR + l.mem[l.marker + |s| + |TERMINATOR|..],
          l.marker + |s|, l.index + 1)
  }

  function WriteAll(l: Log, pid: U32, es: seq<Entry>): (r: Log)
    requires |l.mem| == SHM_SIZE
    ensures |r.mem| == SHM_SIZE
  {
    if es == [] then l else WriteEntry(WriteAll(l, pid, es[..|es| - 1]), pid, es[|es| - 1])
  }

  /** A new mapping with its header; the code number goes on from earlier mappings. */
  function Opened(pid: U32, machine: U32, time: U64, index: nat): Log {
    WriteBytes(Log(seq(SHM_SIZE, _ => 0), 0, index), HeaderBytes(pid, machine, time))
  }

  // ---- Writer in place -------------------------------------------------------

  class PerfJitLogger {
    const mem: array<Byte>
    var marker: nat
    var index: nat
    const pid: U32

    ghost predicate Valid()
      reads this
    {
      mem.Length == SHM_SIZE
    }

    ghost function View(): (l: Log)
      reads this, mem
    {
      Log(mem[..], marker, index)
    }

    /** Maps zeroed memory and writes the header. */
    constructor (pid: U32, machine: U32, time: U64, index: nat)
      ensures Valid() && fresh(mem) && this.pid == pid
      ensures View() == Opened(pid, machine, time, index)
    {
      mem := new Byte[SHM_SIZE](_ => 0);
      this.marker, this.index, this.pid := 0, index, pid;
      new;
      assert mem[..] == seq(SHM_SIZE, _ => 0);
      LogWriteBytes(HeaderBytes(pid, machine, time));
    }

    method LogWriteBytes(bytes: seq<Byte>)
      requires Valid()
      modifies this`marker, mem
      ensures View() == WriteBytes(old(View()), bytes)
      ensures var fits := old(marker) + |bytes| < 100 * 1024 * 1024;
              && marker == old(marker) + (if fits then |bytes| else 0)
              && (!fits ==> mem[..] == old(mem[..]))
              && (fits ==> && mem[..old(marker)] == old(mem[..marker]) && mem[old(marker)..marker] == bytes
                           && mem[marker..] == old(mem[marker + |bytes|..]))
    {
      if HasEnoughMemory(marker, |bytes|) {
        ghost var before := mem[..];
        for i := 0 to |bytes|
          invariant marker == old(marker)
          invariant mem[..] == before[..marker] + bytes[..i] + before[marker + i..]
        {
          mem[marker + i] := bytes[i];
          assert bytes[..i + 1] == bytes[..i] + [bytes[i]];
          assert mem[..] == before[..marker] + bytes[..i + 1] + before[marker + i + 1..];
        }
        assert bytes[..|bytes|] == bytes;
        marker := marker + |bytes|;
      }
    }

    /** The four writes of one record, each with its own check. */
    method WriteRecord(head: seq<Byte>, name: seq<Byte>, code: seq<Byte>)
      requires Valid() && HasEnoughMemory(marker, |head| + |name| + 1 + |code|)
      modifies this`marker, mem
      ensures View() == WriteBytes(old(View()), head + name + [0] + code)
    {
      ghost var o := View();
      TwoWrites(o, head, name);
      TwoWrites(o, head + name, [0]);
      TwoWrites(o, head + name + [0], code);
      hide WriteBytes;
      LogWriteBytes(head);
      LogWriteBytes(name);
      LogWriteBytes([0]);
      LogWriteBytes(code);
    }

    /** The record, then the terminator; then the position steps back so that the next
        record overwrites the terminator. */
    method WriteJitCodeLoadEntry(e: Entry)
      requires Valid() && Loggable(e)
      modifies this`marker, this`index, mem
      ensures View() == WriteEntry(old(View()), pid, e)
      ensures LoggedAs(old(View()), View(), pid, e)
    {
      hide LoggedAs;
      EntryLogged(View(), pid, e);
      ghost var l := View();
      var head := LoadBytes(e, pid, index);
      assert RecordBytes(e, pid, l.index) == head + e.name + [0] + e.code;
      index := index + 1;
      hide LoadBytes, RecordBytes;
      if HasEnoughMemory(marker, RecordSize(e) + |TERMINATOR|) {
        ghost var o := View();
        EntryIsOneWrite(l, pid, e);
        TwoWrites(o, RecordBytes(e, pid, l.index), TERMINATOR);
        hide WriteBytes;
        WriteRecord(head, e.name, e.code);
        LogWriteBytes(TERMINATOR);
        marker := marker - |TERMINATOR|;
      }
    }
  }

  lemma EntryIsOneWrite(l: Log, pid: U32, e: Entry)
    requires |l.mem| == SHM_SIZE && Fits(l, e)
    ensures var w := WriteBytes(l.(index := l.index + 1), RecordBytes(e, pid, l.index) + TERMINATOR);
            w.marker >= |TERMINATOR| && WriteEntry(l, pid, e) == w.(marker := w.marker - |TERMINATOR|)
  {
    var s := RecordBytes(e, pid, l.index);
    assert l.mem[..l.marker] + s + TERMINATOR == l.mem[..l.marker] + (s + TERMINATOR);
  }

  /** The record, if there is room for it and a terminator behind it, stands where the
      position was, the terminator behind it at the new position; else nothing is written.
      What came before stays, and the number advances either way. */
  ghost predicate LoggedAs(l: Log, t: Log, pid: U32, e: Entry)
    requires |l.mem| == SHM_SIZE
  {
    var size := 56 + |e.name| + 1 + |e.code|;
    && t.index == l.index + 1 && |t.mem| == |l.mem|
    && if l.marker + size + 8 < 100 * 1024 * 1024
       then && t.marker == l.marker + size && t.mem[..l.marker] == l.mem[..l.marker]
            && t.mem[l.marker..t.marker] == RecordBytes(e, pid, l.index)
            && t.mem[t.marker..t.marker + 8] == [0x4A, 0x49, 0x54, 0x23, 0x45, 0x4E, 0x44, 0]
            && t.mem[t.marker + 8..] == l.mem[t.marker + 8..]
       else t.marker == l.marker && t.mem == l.mem
  }

  lemma EntryLogged(l: Log, pid: U32, e: Entry)
    requires |l.mem| == SHM_SIZE
    ensures LoggedAs(l, WriteEntry(l, pid, e), pid, e)
  {
    hide RecordBytes;
    var s, t := RecordBytes(e, pid, l.index), WriteEntry(l, pid, e);
    if Fits(l, e) {
      FourParts(l.mem[..l.marker], s, TERMINATOR, l.mem[l.marker + |s| + 8..]);
    }
  }

  lemma FourParts(a: seq<Byte>, b: seq<Byte>, c: seq<Byte>, d: seq<Byte>)
    ensures var m := a + b + c + d;
            && m[..|a|] == a && m[|a|..|a| + |b|] == b
            && m[|a| + |b|..|a| + |b| + |c|] == c && m[|a| + |b| + |c|..] == d
  {
  }

  /** Two writes that fit are one write of both. */
  lemma TwoWrites(l: Log, a: seq<Byte>, b: seq<Byte>)
    requires |l.mem| == SHM_SIZE && HasEnoughMemory(l.marker, |a| + |b|)
    ensures WriteBytes(WriteBytes(l, a), b) == WriteBytes(l, a + b)
  {
    var m := WriteBytes(l, a).mem;
    assert m[..l.marker + |a|] == l.mem[..l.marker] + a;
    assert m[l.marker + |a| + |b|..] == l.mem[l.marker + |a| + |b|..];
    assert l.mem[..l.marker] + a + b == l.mem[..l.marker] + (a + b);
  }

  // ---- Reader ----------------------------------------------------------------

  datatype Block = Block(address: U64, code: seq<Byte>, name: seq<Byte>)

  /** What the reader ends with: its verdict and the blocks so far, or a read outside the
      copied mapping, which the source does not guard against. */
  datatype Outcome = Done(ok: bool, blocks: seq<Block>) | OutOfBounds

  /** Position of the first NUL from `at` on, or the end. */
  function Nul(m: seq<Byte>, at: nat): (z: nat)
    requires at <= |m|
    ensures at <= z <= |m| && (z < |m| ==> m[z] == 0)
    ensures forall k :: at <= k < z ==> m[k] != 0
    decreases |m| - at
  {
    if at == |m| || m[at] == 0 then at else Nul(m, at + 1)
  }

  /** strcmp against a NUL-terminated constant, from its k-th character on. */
  function SameString(m: seq<Byte>, at: nat, t: seq<Byte>, k: nat): (r: Option<bool>)
    requires k <= |t|
    ensures r == Some(true) ==> k == |t| || at + |t| <= |m|
    ensures k < |t| && r.Some? ==> at + k < |m|
    decreases |t| - k
  {
    if k == |t| then Some(true)
    else if at + k >= |m| then None
    else if m[at + k] != t[k] then Some(false)
    else SameString(m, at, t, k + 1)
  }

  lemma {:induction false} SameStringHit(m: seq<Byte>, at: nat, t: seq<Byte>, k: nat)
    requires k <= |t| && at + |t| <= |m| && m[at..at + |t|] == t
    ensures SameString(m, at, t, k) == Some(true)
    decreases |t| - k
  {
    if k < |t| {
      assert m[at..at + |t|][k] == m[at + k];
      SameStringHit(m, at, t, k + 1);
    }
  }

  /** A header of this process, and the position behind it. */
  function GetHeader(m: seq<Byte>, pid: U32): Option<nat>
    requires |m| >= HEADER_SIZE
  {
    if Field(m, 20, 4) != pid then None else Some(Field(m, 8, 4))
  }

  /** The whole of reading a copied mapping: numbers start at zero behind what its header
      says is the header. */
  function ReadMapping(m: seq<Byte>, pid: U32): Outcome
    requires |m| == SHM_SIZE
  {
    var start := GetHeader(m, pid);
    if start.None? then Done(false, []) else Read(m, start.value, pid, 0, [])
  }

  ghost predicate NextIs(m: seq<Byte>, at: nat, id: nat) {
    at + LOAD_SIZE <= |m| && Field(m, at + 48, 8) == id
  }

  lemma {:induction false} ValueRange(s: seq<Byte>)
    ensures Value(s) < Pow256(|s|)
  {
    if s != [] {
      ValueRange(s[1..]);
    }
  }

  lemma FieldRange(m: seq<Byte>, at: nat)
    requires at + 8 <= |m|
    ensures Field(m, at, 8) < TWO64
  {
    ValueRange(m[at..at + 8]);
    Powers();
  }

  /** One record: refused, running past the copy, or a block and where the next one starts. */
  datatype Piece = Refused | Overrun | Got(block: Block, next: nat)

  function PieceAt(m: seq<Byte>, at: nat, pid: U32, id: U64): (p: Piece)
    ensures p.Got? ==> at + LOAD_SIZE <= |m| && Field(m, at + 48, 8) == id && p.next >= at
  {
    if at + 20 > |m| then Overrun
    else if Field(m, at + 16, 4) != pid then Refused
    else if at + LOAD_SIZE > |m| then Overrun
    else if Field(m, at + 48, 8) != id then Refused
    else
      var z := Nul(m, at + LOAD_SIZE);
      var size := Field(m, at + 40, 8);
      if z == |m| || z + 1 + size > |m| then Overrun
      else
        FieldRange(m, at + 32);
        Got(Block(Field(m, at + 32, 8), m[z + 1..z + 1 + size], m[at + LOAD_SIZE..z]), at + Field(m, at + 4, 4))
  }

  function Read(m: seq<Byte>, at: nat, pid: U32, id: U64, blocks: seq<Block>): Outcome
    decreases |m| - at + (if NextIs(m, at, id) then 1 else 0)
  {
    match PieceAt(m, at, pid, id)
    case Refused => Done(false, blocks)
    case Overrun => OutOfBounds
    case Got(block, next) =>
      match SameString(m, next, TERMINATOR, 0)
      case None => OutOfBounds
      case Some(true) => Done(true, blocks + [block])
      case Some(false) =>
        if next > SHM_SIZE then Done(false, blocks + [block])
        else Read(m, next, pid, (id + 1) % TWO64, blocks + [block])
  }

  method GetJitCode(m: seq<Byte>, start: nat, pid: U32, codeId: U64) returns (r: Outcome)
    ensures r == Read(m, start, pid, codeId, [])
  {
    hide PieceAt, SameString;
    var at: nat, id: U64, blocks := start, codeId, [];
    while true
      invariant Read(m, at, pid, id, blocks) == Read(m, start, pid, codeId, [])
      decreases |m| - at + (if NextIs(m, at, id) then 1 else 0)
    {
      var piece := PieceAt(m, at, pid, id);
      if piece.Refused? {
        return Done(false, blocks);
      }
      if piece.Overrun? {
        return OutOfBounds;
      }
      id := (id + 1) % TWO64;
      blocks := blocks + [piece.block];
      at := piece.next;
      var same := SameString(m, at, TERMINATOR, 0);
      if same.None? {
        return OutOfBounds;
      }
      if same.value {
        return Done(true, blocks);
      }
      if at > SHM_SIZE {
        return Done(false, blocks);
      }
    }
  }
}
