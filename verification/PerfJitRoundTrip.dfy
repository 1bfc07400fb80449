/** The perf-JIT log read back: what the reader returns for everything the logger may have
    written (overlay/arkweb/chromium_ext/v8/ohos-perf-jit.cc, parse-jitcode.cc). */
module PerfJitRoundTrip {
  import opened Bytes
  import opened Options
  import opened PerfJitLog

  // ---- What the log holds ----------------------------------------------------

  /** A record as it stands in the log: its entry and the code number it was given. */
  datatype Kept = Kept(entry: Entry, id: nat)

  function Flat(rs: seq<Kept>, pid: U32): seq<Byte> {
    if rs == [] then [] else RecordBytes(rs[0].entry, pid, rs[0].id) + Flat(rs[1..], pid)
  }

  lemma {:induction false} FlatAppend(rs: seq<Kept>, k: Kept, pid: U32)
    ensures Flat(rs + [k], pid) == Flat(rs, pid) + RecordBytes(k.entry, pid, k.id)
  {
    if rs == [] {
      assert rs + [k] == [k];
      assert Flat([k][1..], pid) == [];
    } else {
      FlatAppend(rs[1..], k, pid);
      assert (rs + [k])[1..] == rs[1..] + [k];
      Associative(RecordBytes(rs[0].entry, pid, rs[0].id), Flat(rs[1..], pid), RecordBytes(k.entry, pid, k.id));
    }
  }

  lemma Associative(a: seq<Byte>, b: seq<Byte>, c: seq<Byte>)
    ensures a + (b + c) == a + b + c
  {
  }

  /** The entries that were not dropped, with their code numbers. */
  function Written(l: Log, pid: U32, es: seq<Entry>): (r: seq<Kept>)
    requires |l.mem| == SHM_SIZE
  {
    if es == [] then []
    else
      var before := WriteAll(l, pid, es[..|es| - 1]);
      Written(l, pid, es[..|es| - 1])
      + (if Fits(before, es[|es| - 1]) then [Kept(es[|es| - 1], before.index)] else [])
  }

  /** From `start` to the marker the log holds exactly these records, then the terminator. */
  ghost predicate Holds(l: Log, start: nat, rs: seq<Kept>, pid: U32) {
    && |l.mem| == SHM_SIZE && start + |Flat(rs, pid)| == l.marker < SHM_SIZE
    && l.mem[start..l.marker] == Flat(rs, pid)
    && (rs != [] ==> l.marker + |TERMINATOR| <= SHM_SIZE && l.mem[l.marker..l.marker + |TERMINATOR|] == TERMINATOR)
  }

  /** One more record goes exactly where the terminator was, and leaves all before it. */
  lemma WriteHolds(l: Log, start: nat, rs: seq<Kept>, pid: U32, e: Entry)
    requires Holds(l, start, rs, pid) && Fits(l, e)
    ensures Holds(WriteEntry(l, pid, e), start, rs + [Kept(e, l.index)], pid)
    ensures WriteEntry(l, pid, e).mem[..l.marker] == l.mem[..l.marker]
  {
    hide LoadBytes;
    var r := WriteEntry(l, pid, e);
    var s := RecordBytes(e, pid, l.index);
    FlatAppend(rs, Kept(e, l.index), pid);
    assert r.mem[..l.marker] == l.mem[..l.marker];
    assert r.mem[start..l.marker] == l.mem[start..l.marker];
    assert r.mem[l.marker..r.marker] == s;
    assert r.mem[start..r.marker] == r.mem[start..l.marker] + s;
    assert r.mem[r.marker..r.marker + |TERMINATOR|] == TERMINATOR;
  }

  lemma {:induction false} AllHolds(l: Log, pid: U32, es: seq<Entry>)
    requires Holds(l, l.marker, [], pid)
    ensures Holds(WriteAll(l, pid, es), l.marker, Written(l, pid, es), pid)
    ensures WriteAll(l, pid, es).index == l.index + |es|
    ensures WriteAll(l, pid, es).mem[..l.marker] == l.mem[..l.marker]
    ensures Written(l, pid, es) == [] ==> WriteAll(l, pid, es).mem == l.mem
  {
    if es != [] {
      var before, e := WriteAll(l, pid, es[..|es| - 1]), es[|es| - 1];
      AllHolds(l, pid, es[..|es| - 1]);
      var rs := Written(l, pid, es[..|es| - 1]);
      assert Written(l, pid, es) == if Fits(before, e) then rs + [Kept(e, before.index)] else rs;
      if Fits(before, e) {
        WriteHolds(before, l.marker, Written(l, pid, es[..|es| - 1]), pid, e);
        assert WriteAll(l, pid, es).mem[..before.marker][..l.marker] == before.mem[..before.marker][..l.marker];
      }
    }
  }

  // ---- Round trip ------------------------------------------------------------

  predicate NulFree(e: Entry) { 0 !in e.name }

  function BlockOf(e: Entry): Block { Block(e.address, e.code, e.name) }

  /** What follows a record's fixed part. */
  function Tail(e: Entry): seq<Byte> { e.name + [0] + e.code }

  /** What the reader makes of a record: a NUL in the name ends it for the reader, and the
      code is then read from behind that NUL. */
  function BlockRead(e: Entry): Block {
    var z := Nul(e.name, 0);
    Block(e.address, Tail(e)[z + 1..z + 1 + |e.code|], e.name[..z])
  }

  /** A record is read as it was logged exactly when its name has no NUL. */
  lemma ReadAsLogged(e: Entry)
    ensures BlockRead(e) == BlockOf(e) <==> NulFree(e)
  {
    var z := Nul(e.name, 0);
    if NulFree(e) {
      assert z == |e.name|;
      assert Tail(e)[z + 1..z + 1 + |e.code|] == e.code;
    } else {
      assert z < |e.name|;
    }
  }

  function BlocksOf(es: seq<Entry>): (r: seq<Block>)
    ensures |r| == |es|
  {
    seq(|es|, i requires 0 <= i < |es| => BlockOf(es[i]))
  }

  function BlocksRead(es: seq<Entry>): (r: seq<Block>)
    ensures |r| == |es|
  {
    seq(|es|, i requires 0 <= i < |es| => BlockRead(es[i]))
  }

  lemma AllReadAsLogged(es: seq<Entry>)
    ensures BlocksRead(es) == BlocksOf(es) <==> forall i :: 0 <= i < |es| ==> NulFree(es[i])
  {
    hide NulFree, BlockRead;
    forall i | 0 <= i < |es|
      ensures BlocksRead(es)[i] == BlocksOf(es)[i] <==> NulFree(es[i])
    {
      ReadAsLogged(es[i]);
    }
  }

  lemma HeadPlaces(e: Entry, pid: U32, id: nat)
    ensures var h := LoadBytes(e, pid, id);
            && h[0..4] == Little(K_LOAD, 4) && h[4..8] == Little(RecordSize(e), 4) && h[8..16] == Little(e.time, 8)
            && h[16..20] == Little(pid, 4) && h[20..24] == Little(e.thread, 4) && h[24..32] == Little(e.address, 8)
            && h[32..40] == Little(e.address, 8) && h[40..48] == Little(|e.code|, 8) && h[48..56] == Little(id, 8)
  {
    hide Little;
    var p1 := Little(K_LOAD, 4) + Little(RecordSize(e), 4);
    var p2 := p1 + Little(e.time, 8);
    var p3 := p2 + Little(pid, 4);
    var p4 := p3 + Little(e.thread, 4);
    var p5 := p4 + Little(e.address, 8);
    var p6 := p5 + Little(e.address, 8);
    var p7 := p6 + Little(|e.code|, 8);
    var h := p7 + Little(id, 8);
    assert h == LoadBytes(e, pid, id);
    hide LoadBytes;
    assert p1[0..4] == Little(K_LOAD, 4) && p1[4..8] == Little(RecordSize(e), 4);
    assert h[..8] == p1 && h[..16] == p2 && h[..20] == p3 && h[..24] == p4 && h[..32] == p5 && h[..40] == p6;
    assert h[..48] == p7;
    assert h[0..4] == h[..8][0..4] && h[4..8] == h[..8][4..8] && h[8..16] == h[..16][8..16];
    assert h[16..20] == h[..20][16..20] && h[20..24] == h[..24][20..24] && h[24..32] == h[..32][24..32];
    assert h[32..40] == h[..40][32..40] && h[40..48] == h[..48][40..48];
  }

  /** All of a record's fixed part: its kind, 0; its size; the time; process and thread; the
      address, twice; the length of the code; and its number. */
  lemma HeadFields(e: Entry, pid: U32, id: nat)
    requires Loggable(e) && id < TWO64
    ensures var h := LoadBytes(e, pid, id);
            && h[0] == 0 && Field(h, 0, 4) == 0 && Field(h, 4, 4) == RecordSize(e) && Field(h, 8, 8) == e.time
            && Field(h, 16, 4) == pid && Field(h, 20, 4) == e.thread
            && Field(h, 24, 8) == e.address == Field(h, 32, 8) && Field(h, 40, 8) == |e.code| && Field(h, 48, 8) == id
  {
    hide Little, Field, LoadBytes;
    var h := LoadBytes(e, pid, id);
    HeadPlaces(e, pid, id);
    Powers();
    FieldHere(h, 0, K_LOAD, 4);
    FieldHere(h, 4, RecordSize(e), 4);
    FieldHere(h, 8, e.time, 8);
    FieldHere(h, 16, pid, 4);
    FieldHere(h, 20, e.thread, 4);
    FieldHere(h, 24, e.address, 8);
    FieldHere(h, 32, e.address, 8);
    FieldHere(h, 40, |e.code|, 8);
    FieldHere(h, 48, id, 8);
    assert h[0] == h[0..4][0] == Little(K_LOAD, 4)[0];
    LoadIsZero();
  }

  lemma LoadIsZero()
    ensures Little(K_LOAD, 4)[0] == 0
  {
  }

  lemma {:induction false} NulFound(m: seq<Byte>, at: nat, z: nat)
    requires at <= z < |m| && m[z] == 0 && forall k :: at <= k < z ==> m[k] != 0
    ensures Nul(m, at) == z
    decreases z - at
  {
    if at < z {
      NulFound(m, at + 1, z);
    }
  }

  lemma HeadInPlace(m: seq<Byte>, at: nat, pid: U32, e: Entry, id: nat)
    requires Loggable(e) && id < TWO64
    requires at + RecordSize(e) <= |m| && m[at..at + RecordSize(e)] == RecordBytes(e, pid, id)
    ensures m[at] == 0 && Field(m, at + 4, 4) == RecordSize(e) && Field(m, at + 16, 4) == pid
    ensures Field(m, at + 32, 8) == e.address && Field(m, at + 40, 8) == |e.code| && Field(m, at + 48, 8) == id
  {
    hide LoadBytes;
    var r, h := RecordBytes(e, pid, id), LoadBytes(e, pid, id);
    var n := at + LOAD_SIZE;
    HeadFields(e, pid, id);
    assert m[at..n] == h by {
      assert r[..LOAD_SIZE] == h;
      assert m[at..at + |r|][..LOAD_SIZE] == m[at..n];
    }
    FieldInside(m, at, n, 4, 4);
    FieldInside(m, at, n, 16, 4);
    FieldInside(m, at, n, 32, 8);
    FieldInside(m, at, n, 40, 8);
    FieldInside(m, at, n, 48, 8);
    assert m[at] == m[at..n][0];
  }

  /** Where a record stands, the reader finds its block and the start of what follows. */
  lemma PieceOfRecord(m: seq<Byte>, at: nat, pid: U32, e: Entry, id: nat, wanted: U64)
    requires Loggable(e) && id < TWO64
    requires at + RecordSize(e) <= |m| && m[at..at + RecordSize(e)] == RecordBytes(e, pid, id)
    ensures m[at] == 0
    ensures PieceAt(m, at, pid, wanted) == if id == wanted then Got(BlockRead(e), at + RecordSize(e)) else Refused
  {
    hide Nul, RecordBytes, Field, PieceAt, LoadBytes, Tail;
    var z := at + LOAD_SIZE + Nul(e.name, 0);
    assert BlockRead(e).address == e.address;
    hide BlockRead;
    HeadInPlace(m, at, pid, e, id);
    RecordTail(m, at, pid, e, id);
    NulFound(m, at + LOAD_SIZE, z);
    PieceIs(m, at, pid, wanted, z);
  }

  lemma PieceIs(m: seq<Byte>, at: nat, pid: U32, wanted: U64, z: nat)
    requires at + LOAD_SIZE <= |m| && Field(m, at + 16, 4) == pid && Nul(m, at + LOAD_SIZE) == z
    requires z + 1 + Field(m, at + 40, 8) <= |m|
    ensures Field(m, at + 32, 8) < TWO64
    ensures var size := Field(m, at + 40, 8);
            PieceAt(m, at, pid, wanted)
            == if Field(m, at + 48, 8) != wanted then Refused
               else Got(Block(Field(m, at + 32, 8), m[z + 1..z + 1 + size], m[at + LOAD_SIZE..z]),
                        at + Field(m, at + 4, 4))
  {
    hide Nul, Field;
    FieldRange(m, at + 32);
  }

  lemma RecordTail(m: seq<Byte>, at: nat, pid: U32, e: Entry, id: nat)
    requires at + RecordSize(e) <= |m| && m[at..at + RecordSize(e)] == RecordBytes(e, pid, id)
    ensures var n, z := at + LOAD_SIZE, Nul(e.name, 0);
            && m[n + z] == 0 && (forall k :: n <= k < n + z ==> m[k] != 0)
            && m[n..n + z] == BlockRead(e).name
            && m[n + z + 1..n + z + 1 + |e.code|] == BlockRead(e).code
  {
    RecordIsLoadAndTail(e, pid, id);
    hide RecordBytes, BlockRead, Nul;
    SecondPart(m, at, LoadBytes(e, pid, id), Tail(e));
    hide LoadBytes, Tail;
    TailRead(m, at + LOAD_SIZE, e);
  }

  lemma RecordIsLoadAndTail(e: Entry, pid: U32, id: nat)
    ensures RecordBytes(e, pid, id) == LoadBytes(e, pid, id) + Tail(e) && RecordSize(e) == LOAD_SIZE + |Tail(e)|
  {
    hide LoadBytes;
  }

  lemma SecondPart(m: seq<Byte>, at: nat, head: seq<Byte>, tail: seq<Byte>)
    requires at + |head| + |tail| <= |m| && m[at..at + |head| + |tail|] == head + tail
    ensures m[at + |head|..at + |head| + |tail|] == tail
  {
    forall k | 0 <= k < |tail| ensures m[at + |head| + k] == tail[k] {
      assert m[at..at + |head| + |tail|][|head| + k] == (head + tail)[|head| + k];
    }
  }

  lemma TailRead(m: seq<Byte>, n: nat, e: Entry)
    requires n + |Tail(e)| <= |m| && m[n..n + |Tail(e)|] == Tail(e)
    ensures var z := Nul(e.name, 0);
            && |Tail(e)| == |e.name| + 1 + |e.code| && z + 1 + |e.code| <= |Tail(e)|
            && m[n + z] == 0 && (forall k :: n <= k < n + z ==> m[k] != 0)
            && m[n..n + z] == BlockRead(e).name
            && m[n + z + 1..n + z + 1 + |e.code|] == BlockRead(e).code
  {
    var t, z := Tail(e), Nul(e.name, 0);
    TailNul(e);
    hide Nul, Tail;
    SamePart(m, n, t, 0, z);
    SamePart(m, n, t, z + 1, z + 1 + |e.code|);
    assert m[n..n + |t|][z] == m[n + z];
    forall k | n <= k < n + z ensures m[k] != 0 {
      assert m[n..n + |t|][k - n] == t[k - n];
    }
  }

  lemma TailNul(e: Entry)
    ensures var t, z := Tail(e), Nul(e.name, 0);
            && |t| == |e.name| + 1 + |e.code| && z + 1 + |e.code| <= |t| && t[z] == 0
            && (forall k :: 0 <= k < z ==> t[k] != 0) && t[0..z] == e.name[..z]
  {
    var t, z := Tail(e), Nul(e.name, 0);
    assert t[z] == 0 && forall k :: 0 <= k < z ==> t[k] == e.name[k] && t[k] != 0;
  }

  lemma SamePart(m: seq<Byte>, n: nat, t: seq<Byte>, lo: nat, hi: nat)
    requires n + |t| <= |m| && m[n..n + |t|] == t && lo <= hi <= |t|
    ensures m[n + lo..n + hi] == t[lo..hi]
  {
    forall k | lo <= k < hi ensures m[n + k] == t[k] {
      assert m[n..n + |t|][k] == m[n + k];
    }
  }

  /** The reader over records instead of bytes: it stops at the first unexpected number. */
  function Walk(rs: seq<Kept>, id: nat, blocks: seq<Block>): Outcome
    requires rs != []
  {
    if rs[0].id != id then Done(false, blocks)
    else if |rs| == 1 then Done(true, blocks + [BlockRead(rs[0].entry)])
    else Walk(rs[1..], id + 1, blocks + [BlockRead(rs[0].entry)])
  }

  ghost predicate Readable(rs: seq<Kept>) {
    forall i :: 0 <= i < |rs| ==> Loggable(rs[i].entry) && rs[i].id < TWO64
  }

  /** These records stand at that place, and the terminator behind them. */
  ghost predicate Standing(m: seq<Byte>, at: nat, pid: U32, rs: seq<Kept>) {
    && Readable(rs)
    && var end := at + |Flat(rs, pid)|;
       && end + |TERMINATOR| <= |m| && m[at..end] == Flat(rs, pid)
       && m[end..end + |TERMINATOR|] == TERMINATOR
  }

  /** The bytes of the first record, and those of the rest right behind it. */
  lemma FirstStands(m: seq<Byte>, at: nat, pid: U32, rs: seq<Kept>)
    requires rs != [] && Standing(m, at, pid, rs)
    ensures var next := at + RecordSize(rs[0].entry);
            && next + |TERMINATOR| <= |m|
            && m[at..next] == RecordBytes(rs[0].entry, pid, rs[0].id)
            && Standing(m, next, pid, rs[1..])
  {
    var all, n := Flat(rs, pid), RecordSize(rs[0].entry);
    assert all[..n] == RecordBytes(rs[0].entry, pid, rs[0].id) && all[n..] == Flat(rs[1..], pid);
    assert m[at..at + |all|][..n] == m[at..at + n];
    assert m[at..at + |all|][n..] == m[at + n..at + |all|];
  }

  /** One round of the reader, told what stands where it reads. */
  lemma ReadStep(m: seq<Byte>, at: nat, pid: U32, id: U64, blocks: seq<Block>, b: Block, next: nat, last: bool)
    requires PieceAt(m, at, pid, id) == Got(b, next) && next <= SHM_SIZE
    requires SameString(m, next, TERMINATOR, 0) == Some(last)
    ensures Read(m, at, pid, id, blocks) ==
            if last then Done(true, blocks + [b]) else Read(m, next, pid, (id + 1) % TWO64, blocks + [b])
  {
  }

  lemma ReadRefused(m: seq<Byte>, at: nat, pid: U32, id: U64, blocks: seq<Block>)
    requires PieceAt(m, at, pid, id) == Refused
    ensures Read(m, at, pid, id, blocks) == Done(false, blocks)
  {
  }

  /** What the reader makes of the first of some records in place. */
  lemma ReadFirst(m: seq<Byte>, at: nat, pid: U32, rs: seq<Kept>, id: U64, blocks: seq<Block>)
    requires |m| == SHM_SIZE && rs != [] && Standing(m, at, pid, rs)
    ensures var e := rs[0].entry;
            Read(m, at, pid, id, blocks) ==
            if rs[0].id != id then Done(false, blocks)
            else if |rs| == 1 then Done(true, blocks + [BlockRead(e)])
            else Read(m, at + RecordSize(e), pid, (id + 1) % TWO64, blocks + [BlockRead(e)])
  {
    hide Read, RecordBytes, BlockRead, SameString;
    var e := rs[0].entry;
    var next := at + RecordSize(e);
    FirstStands(m, at, pid, rs);
    PieceOfRecord(m, at, pid, e, rs[0].id, id);
    if rs[0].id != id {
      ReadRefused(m, at, pid, id, blocks);
    } else if |rs| == 1 {
      SameStringHit(m, next, TERMINATOR, 0);
      ReadStep(m, at, pid, id, blocks, BlockRead(e), next, true);
    } else {
      StartsWithZero(m, next, pid, rs[1..]);
      ReadStep(m, at, pid, id, blocks, BlockRead(e), next, false);
    }
  }

  /** The reader, on records in place, is the walk over them. */
  lemma {:induction false} ReadRecords(m: seq<Byte>, at: nat, pid: U32, rs: seq<Kept>, id: U64, blocks: seq<Block>)
    requires |m| == SHM_SIZE && rs != [] && Standing(m, at, pid, rs) && id + |rs| <= TWO64
    ensures Read(m, at, pid, id, blocks) == Walk(rs, id, blocks)
    decreases |rs|
  {
    hide RecordBytes, PieceAt, Read, Standing, Flat;
    ReadFirst(m, at, pid, rs, id, blocks);
    if rs[0].id == id && |rs| > 1 {
      FirstStands(m, at, pid, rs);
      ReadRecords(m, at + RecordSize(rs[0].entry), pid, rs[1..], id + 1, blocks + [BlockRead(rs[0].entry)]);
    }
  }

  /** No record can be taken for the terminator: its first byte is that of kLoad. */
  lemma StartsWithZero(m: seq<Byte>, at: nat, pid: U32, rs: seq<Kept>)
    requires rs != [] && Standing(m, at, pid, rs)
    ensures m[at] == 0 && SameString(m, at, TERMINATOR, 0) == Some(false)
  {
    var e := rs[0].entry;
    HeadFields(e, pid, rs[0].id);
    assert Flat(rs, pid)[0] == LoadBytes(e, pid, rs[0].id)[0];
    assert m[at] == m[at..at + |Flat(rs, pid)|][0];
  }

  ghost predicate Numbered(rs: seq<Kept>, from: nat) {
    forall i :: 0 <= i < |rs| ==> rs[i].id == from + i
  }

  lemma NumberedTail(rs: seq<Kept>, from: nat)
    requires rs != [] && rs[0].id == from
    ensures Numbered(rs, from) <==> Numbered(rs[1..], from + 1)
  {
    if Numbered(rs[1..], from + 1) {
      forall i | 0 <= i < |rs| ensures rs[i].id == from + i {
        if i > 0 {
          assert rs[1..][i - 1] == rs[i];
        }
      }
    }
  }

  lemma {:induction false} WalkOutcome(rs: seq<Kept>, id: nat, blocks: seq<Block>)
    requires rs != []
    ensures Walk(rs, id, blocks).Done?
    ensures Walk(rs, id, blocks).ok <==> Numbered(rs, id)
    ensures Numbered(rs, id) ==> Walk(rs, id, blocks).blocks == blocks + KeptBlocks(rs)
  {
    if rs[0].id == id && |rs| > 1 {
      var b := BlockRead(rs[0].entry);
      NumberedTail(rs, id);
      WalkOutcome(rs[1..], id + 1, blocks + [b]);
      assert KeptBlocks(rs) == [b] + KeptBlocks(rs[1..]);
    }
  }

  function KeptBlocks(rs: seq<Kept>): (r: seq<Block>)
    ensures |r| == |rs|
  {
    seq(|rs|, i requires 0 <= i < |rs| => BlockRead(rs[i].entry))
  }

  /** The i-th logged entry was not dropped. */
  ghost predicate FitsAt(l: Log, pid: U32, es: seq<Entry>, i: nat)
    requires |l.mem| == SHM_SIZE && i < |es|
  {
    Fits(WriteAll(l, pid, es[..i]), es[i])
  }

  /** The first k entries were logged and every later one was dropped. */
  ghost predicate DroppedFrom(l: Log, pid: U32, es: seq<Entry>, k: nat)
    requires |l.mem| == SHM_SIZE
  {
    k <= |es| && forall i :: 0 <= i < |es| ==> (FitsAt(l, pid, es, i) <==> i < k)
  }

  lemma FitsAtShorter(l: Log, pid: U32, es: seq<Entry>, i: nat)
    requires |l.mem| == SHM_SIZE && i + 1 < |es|
    ensures FitsAt(l, pid, es[..|es| - 1], i) == FitsAt(l, pid, es, i)
  {
    assert es[..|es| - 1][..i] == es[..i];
  }

  lemma {:induction false} PrefixWritten(l: Log, pid: U32, es: seq<Entry>, k: nat)
    requires Holds(l, l.marker, [], pid) && DroppedFrom(l, pid, es, k)
    ensures |Written(l, pid, es)| == k
    ensures forall i :: 0 <= i < k ==> Written(l, pid, es)[i] == Kept(es[i], l.index + i)
  {
    if es != [] {
      var n := |es| - 1;
      forall i | 0 <= i < n ensures FitsAt(l, pid, es[..n], i) <==> FitsAt(l, pid, es, i) {
        FitsAtShorter(l, pid, es, i);
      }
      assert FitsAt(l, pid, es, n) <==> n < k;
      AllHolds(l, pid, es[..n]);
      PrefixWritten(l, pid, es[..n], if k <= n then k else n);
    }
  }

  ghost predicate Increasing(w: seq<Kept>) {
    forall i, j :: 0 <= i < j < |w| ==> w[i].id < w[j].id
  }

  /** Each record is the entry of its turn. */
  ghost predicate TakenFrom(w: seq<Kept>, from: nat, es: seq<Entry>) {
    forall i :: 0 <= i < |w| ==> from <= w[i].id < from + |es| && w[i].entry == es[w[i].id - from]
  }

  ghost predicate Carries(w: seq<Kept>, id: nat) {
    exists k :: 0 <= k < |w| && w[k].id == id
  }

  /** Exactly the entries that fitted have a record with the number of their turn. */
  ghost predicate FittedCarried(l: Log, pid: U32, es: seq<Entry>, w: seq<Kept>)
    requires |l.mem| == SHM_SIZE
  {
    forall i :: 0 <= i < |es| ==> (FitsAt(l, pid, es, i) <==> Carries(w, l.index + i))
  }

  /** Code numbers of logged records grow, and are those of the entries' turns. */
  lemma {:induction false} WrittenNumbers(l: Log, pid: U32, es: seq<Entry>)
    requires Holds(l, l.marker, [], pid)
    ensures TakenFrom(Written(l, pid, es), l.index, es) && Increasing(Written(l, pid, es))
    ensures FittedCarried(l, pid, es, Written(l, pid, es))
  {
    assert |l.mem| == SHM_SIZE;
    hide Written, WriteAll, Holds, FitsAt, Fits, TakenFrom, Increasing, FittedCarried;
    if es == [] {
      NoneWritten(l, pid);
    } else {
      var before, e := es[..|es| - 1], es[|es| - 1];
      var log := WriteAll(l, pid, before);
      assert before + [e] == es;
      WrittenNumbers(l, pid, before);
      LastWritten(l, pid, es, before, e, log);
      EntryNumbered(l, pid, es, Written(l, pid, before), Fits(log, e));
    }
  }

  lemma EntryNumbered(l: Log, pid: U32, es: seq<Entry>, v: seq<Kept>, fits: bool)
    requires |l.mem| == SHM_SIZE && es != [] && fits == FitsAt(l, pid, es, |es| - 1)
    requires TakenFrom(v, l.index, es[..|es| - 1]) && Increasing(v) && FittedCarried(l, pid, es[..|es| - 1], v)
    ensures var n := |es| - 1;
            var w := v + if fits then [Kept(es[n], l.index + n)] else [];
            TakenFrom(w, l.index, es) && Increasing(w) && FittedCarried(l, pid, es, w)
  {
    hide FitsAt, TakenFrom, Increasing, FittedCarried, Carries;
    var n := |es| - 1;
    OneMore(v, Kept(es[n], l.index + n), l.index, es[..n]);
    assert es[..n] + [es[n]] == es;
    if fits {
      LastCarried(l, pid, es, v, v + [Kept(es[n], l.index + n)]);
    } else {
      assert v + [] == v;
      LastCarried(l, pid, es, v, v);
    }
  }

  lemma LastCarried(l: Log, pid: U32, es: seq<Entry>, v: seq<Kept>, w: seq<Kept>)
    requires |l.mem| == SHM_SIZE && es != [] && FittedCarried(l, pid, es[..|es| - 1], v)
    requires TakenFrom(v, l.index, es[..|es| - 1])
    requires var n := |es| - 1;
             w == if FitsAt(l, pid, es, n) then v + [Kept(es[n], l.index + n)] else v
    ensures FittedCarried(l, pid, es, w)
  {
    hide FitsAt;
    var n := |es| - 1;
    NotYetCarried(v, l.index, es[..n]);
    assert FitsAt(l, pid, es, n) ==> w[|v|].id == l.index + n;
    forall i | 0 <= i < n ensures FitsAt(l, pid, es, i) <==> Carries(w, l.index + i) {
      FitsAtShorter(l, pid, es, i);
      SameCarried(v, w, l.index + i);
    }
  }

  lemma SameCarried(v: seq<Kept>, w: seq<Kept>, id: nat)
    requires v == w || (|w| == |v| + 1 && v == w[..|v|] && w[|v|].id != id)
    ensures Carries(v, id) <==> Carries(w, id)
  {
    if k :| 0 <= k < |v| && v[k].id == id {
      assert w[k] == v[k];
    }
  }

  lemma NoneWritten(l: Log, pid: U32)
    requires |l.mem| == SHM_SIZE
    ensures TakenFrom(Written(l, pid, []), l.index, []) && Increasing(Written(l, pid, []))
    ensures FittedCarried(l, pid, [], Written(l, pid, []))
  {
  }

  lemma LastWritten(l: Log, pid: U32, es: seq<Entry>, before: seq<Entry>, e: Entry, log: Log)
    requires Holds(l, l.marker, [], pid) && es == before + [e] && log == WriteAll(l, pid, before)
    ensures log.index == l.index + |before| && FitsAt(l, pid, es, |before|) == Fits(log, e)
    ensures Written(l, pid, es) == Written(l, pid, before) + (if Fits(log, e) then [Kept(e, log.index)] else [])
  {
    hide Holds, Fits;
    assert es[..|es| - 1] == before;
    AllHolds(l, pid, before);
  }

  lemma NotYetCarried(v: seq<Kept>, from: nat, es: seq<Entry>)
    requires TakenFrom(v, from, es)
    ensures !Carries(v, from + |es|)
  {
  }

  lemma OneMore(v: seq<Kept>, k: Kept, from: nat, es: seq<Entry>)
    requires Increasing(v) && TakenFrom(v, from, es) && k.id == from + |es|
    ensures Increasing(v + [k]) && TakenFrom(v + [k], from, es + [k.entry]) && TakenFrom(v, from, es + [k.entry])
    ensures forall id :: Carries(v + [k], id) <==> Carries(v, id) || id == k.id
  {
    var w := v + [k];
    assert w[|v|] == k;
    assert forall i :: 0 <= i < |v| ==> w[i] == v[i];
    forall id ensures Carries(w, id) <==> Carries(v, id) || id == k.id {
      if Carries(v, id) {
        var i :| 0 <= i < |v| && v[i].id == id;
        assert w[i].id == id;
      }
    }
  }

  lemma FromZeroMeansNoGap(l: Log, pid: U32, es: seq<Entry>)
    requires Holds(l, l.marker, [], pid) && FromZero(Written(l, pid, es))
    ensures l.index == 0 && DroppedFrom(l, pid, es, |Written(l, pid, es)|)
  {
    WrittenNumbers(l, pid, es);
    assert |l.mem| == SHM_SIZE;
    hide RecordBytes, Written, WriteAll, Holds, FitsAt;
    var w := Written(l, pid, es);
    assert w[0].id == 0 && w[|w| - 1].id == |w| - 1;
    forall i | 0 <= i < |es| ensures FitsAt(l, pid, es, i) <==> i < |w| {
      assert FitsAt(l, pid, es, i) <==> Carries(w, i);
      if i < |w| {
        assert w[i].id == i;
      }
    }
  }

  /** The logged records are numbered 0, 1, 2, ... exactly when the numbering starts at zero
      and nothing was logged after the first drop. */
  lemma NumberedFromZero(l: Log, pid: U32, es: seq<Entry>)
    requires Holds(l, l.marker, [], pid)
    ensures FromZero(Written(l, pid, es)) <==> (l.index == 0 && exists k :: k > 0 && DroppedFrom(l, pid, es, k))
  {
    if FromZero(Written(l, pid, es)) {
      FromZeroMeansNoGap(l, pid, es);
    }
    assert |l.mem| == SHM_SIZE;
    hide Written, WriteAll, DroppedFrom, RecordBytes;
    if l.index == 0 && exists k :: k > 0 && DroppedFrom(l, pid, es, k) {
      var k :| k > 0 && DroppedFrom(l, pid, es, k);
      PrefixWritten(l, pid, es, k);
    }
  }

  lemma HeaderPlaces(pid: U32, machine: U32, time: U64)
    ensures var h := HeaderBytes(pid, machine, time);
            && h[0..4] == Little(MAGIC, 4) && h[4..8] == Little(1, 4) && h[8..12] == Little(HEADER_SIZE, 4)
            && h[12..16] == Little(machine, 4) && h[16..20] == Little(0xDEADBEEF, 4) && h[20..24] == Little(pid, 4)
            && h[24..32] == Little(time, 8) && h[32..40] == Little(0, 8)
  {
    hide Little;
    var p1 := Little(MAGIC, 4) + Little(1, 4);
    var p2 := p1 + Little(HEADER_SIZE, 4);
    var p3 := p2 + Little(machine, 4);
    var p4 := p3 + Little(0xDEADBEEF, 4);
    var p5 := p4 + Little(pid, 4);
    var p6 := p5 + Little(time, 8);
    var h := p6 + Little(0, 8);
    assert h == HeaderBytes(pid, machine, time);
    hide HeaderBytes;
    assert p1[0..4] == Little(MAGIC, 4) && p1[4..8] == Little(1, 4);
    assert h[..8] == p1 && h[..12] == p2 && h[..16] == p3 && h[..20] == p4 && h[..24] == p5 && h[..32] == p6;
    assert h[0..4] == h[..8][0..4] && h[4..8] == h[..8][4..8] && h[8..12] == h[..12][8..12];
    assert h[12..16] == h[..16][12..16] && h[16..20] == h[..20][16..20] && h[20..24] == h[..24][20..24];
    assert h[24..32] == h[..32][24..32];
  }

  /** All of the header: magic number, version, its own size, the machine, the padding, the
      process, the time, and no flags. */
  lemma HeaderFields(pid: U32, machine: U32, time: U64)
    ensures var h := HeaderBytes(pid, machine, time);
            && Field(h, 0, 4) == 0x4A695444 && Field(h, 4, 4) == 1 && Field(h, 8, 4) == 40
            && Field(h, 12, 4) == machine && Field(h, 16, 4) == 0xDEADBEEF && Field(h, 20, 4) == pid
            && Field(h, 24, 8) == time && Field(h, 32, 8) == 0
  {
    hide Little, Field, HeaderBytes;
    var h := HeaderBytes(pid, machine, time);
    HeaderPlaces(pid, machine, time);
    Powers();
    FieldHere(h, 0, MAGIC, 4);
    FieldHere(h, 4, 1, 4);
    FieldHere(h, 8, HEADER_SIZE, 4);
    FieldHere(h, 12, machine, 4);
    FieldHere(h, 16, 0xDEADBEEF, 4);
    FieldHere(h, 20, pid, 4);
    FieldHere(h, 24, time, 8);
    FieldHere(h, 32, 0, 8);
  }

  lemma FieldHere(h: seq<Byte>, at: nat, n: nat, w: nat)
    requires at + w <= |h| && n < Pow256(w) && h[at..at + w] == Little(n, w)
    ensures Field(h, at, w) == n
  {
    LittleValue(n, w);
  }

  lemma HeaderFound(m: seq<Byte>, h: seq<Byte>, pid: U32)
    requires |m| == SHM_SIZE && |h| == HEADER_SIZE && m[..HEADER_SIZE] == h
    requires Field(h, 20, 4) == pid && Field(h, 8, 4) == HEADER_SIZE
    ensures GetHeader(m, pid) == Some(HEADER_SIZE)
  {
    FieldInside(m, 0, HEADER_SIZE, 20, 4);
    FieldInside(m, 0, HEADER_SIZE, 8, 4);
  }

  /** A new mapping holds the header, no records, and zeros behind it. */
  lemma OpenedHolds(pid: U32, machine: U32, time: U64, index: nat)
    ensures var l := Opened(pid, machine, time, index);
            && l.marker == HEADER_SIZE && l.index == index && Holds(l, l.marker, [], pid)
            && l.mem[..HEADER_SIZE] == HeaderBytes(pid, machine, time)
            && forall i :: HEADER_SIZE <= i < SHM_SIZE ==> l.mem[i] == 0
  {
  }

  /** The reader refuses a log without records: the zeros there are no process number. */
  lemma NothingRead(m: seq<Byte>, pid: U32)
    requires |m| == SHM_SIZE && pid > 0 && forall i :: HEADER_SIZE <= i < SHM_SIZE ==> m[i] == 0
    ensures Read(m, HEADER_SIZE, pid, 0, []) == Done(false, [])
  {
    var at := HEADER_SIZE + 16;
    assert m[at..at + 4] == [0, 0, 0, 0];
    assert Value([0, 0, 0, 0]) == 0;
    ReadRefused(m, HEADER_SIZE, pid, 0, []);
  }

  lemma WrittenReadable(l: Log, pid: U32, es: seq<Entry>)
    requires Holds(l, l.marker, [], pid) && l.index + |es| <= TWO64
    requires forall i :: 0 <= i < |es| ==> Loggable(es[i])
    ensures Readable(Written(l, pid, es)) && |Written(l, pid, es)| <= |es|
  {
    WrittenNumbers(l, pid, es);
    WrittenLength(l, pid, es);
  }

  lemma {:induction false} WrittenLength(l: Log, pid: U32, es: seq<Entry>)
    requires |l.mem| == SHM_SIZE
    ensures |Written(l, pid, es)| <= |es|
  {
    if es != [] {
      WrittenLength(l, pid, es[..|es| - 1]);
    }
  }

  ghost predicate FromZero(w: seq<Kept>) { w != [] && Numbered(w, 0) }

  /** The verdict in terms of the records the log holds. */
  lemma LogRead(l: Log, pid: U32, es: seq<Entry>)
    requires Holds(l, l.marker, [], pid) && l.marker == HEADER_SIZE && pid > 0 && l.index + |es| <= TWO64
    requires forall i :: HEADER_SIZE <= i < SHM_SIZE ==> l.mem[i] == 0
    requires forall i :: 0 <= i < |es| ==> Loggable(es[i])
    ensures var w := Written(l, pid, es);
            var r := Read(WriteAll(l, pid, es).mem, HEADER_SIZE, pid, 0, []);
            r.Done? && (r.ok <==> FromZero(w)) && (FromZero(w) ==> r.blocks == KeptBlocks(w))
  {
    hide WriteAll, Written, Read;
    var m, w := WriteAll(l, pid, es).mem, Written(l, pid, es);
    AllHolds(l, pid, es);
    if w == [] {
      NothingRead(m, pid);
    } else {
      WrittenReadable(l, pid, es);
      ReadRecords(m, HEADER_SIZE, pid, w, 0, []);
      WalkOutcome(w, 0, []);
    }
  }

  lemma LogRoundTrip(l: Log, pid: U32, es: seq<Entry>)
    requires Holds(l, l.marker, [], pid) && l.marker == HEADER_SIZE && pid > 0 && l.index + |es| <= TWO64
    requires forall i :: HEADER_SIZE <= i < SHM_SIZE ==> l.mem[i] == 0
    requires forall i :: 0 <= i < |es| ==> Loggable(es[i])
    ensures var r := Read(WriteAll(l, pid, es).mem, HEADER_SIZE, pid, 0, []);
            && r.Done?
            && (r.ok <==> l.index == 0 && exists k :: k > 0 && DroppedFrom(l, pid, es, k))
            && (forall k :: l.index == 0 && k > 0 && DroppedFrom(l, pid, es, k) ==> r.blocks == BlocksRead(es[..k]))
  {
    hide RecordBytes, Read;
    var w := Written(l, pid, es);
    LogRead(l, pid, es);
    NumberedFromZero(l, pid, es);
    forall k | l.index == 0 && k > 0 && DroppedFrom(l, pid, es, k) ensures KeptBlocks(w) == BlocksRead(es[..k]) {
      PrefixWritten(l, pid, es, k);
    }
  }

  lemma HeaderOutlives(pid: U32, machine: U32, time: U64, index: nat, es: seq<Entry>)
    ensures GetHeader(WriteAll(Opened(pid, machine, time, index), pid, es).mem, pid) == Some(HEADER_SIZE)
  {
    hide RecordBytes;
    OpenedHolds(pid, machine, time, index);
    AllHolds(Opened(pid, machine, time, index), pid, es);
    HeaderFields(pid, machine, time);
    HeaderFound(WriteAll(Opened(pid, machine, time, index), pid, es).mem, HeaderBytes(pid, machine, time), pid);
  }

  /** The reader's verdict on a log, exactly: it returns the logged entries, whole and in
      order, if the code numbers of this mapping start at zero, at least one entry was
      logged, and none was logged after a dropped one. In every other case it refuses. The
      triples are those logged exactly when none of the names holds a NUL. */
  lemma RoundTripExactly(pid: U32, machine: U32, time: U64, index: nat, es: seq<Entry>)
    requires pid > 0 && index + |es| <= TWO64
    requires forall i :: 0 <= i < |es| ==> Loggable(es[i])
    ensures var l := Opened(pid, machine, time, index);
            var m := WriteAll(l, pid, es).mem;
            var r := Read(m, HEADER_SIZE, pid, 0, []);
            && GetHeader(m, pid) == Some(HEADER_SIZE)
            && r.Done?
            && (r.ok <==> index == 0 && exists k :: k > 0 && DroppedFrom(l, pid, es, k))
            && (forall k :: index == 0 && k > 0 && DroppedFrom(l, pid, es, k) ==>
                  r.blocks == BlocksRead(es[..k])
                  && (r.blocks == BlocksOf(es[..k]) <==> forall i :: 0 <= i < k ==> NulFree(es[i])))
  {
    hide RecordBytes, Read, GetHeader, WriteAll, DroppedFrom, BlocksRead, BlocksOf, NulFree, Holds;
    OpenedHolds(pid, machine, time, index);
    HeaderOutlives(pid, machine, time, index, es);
    var l := Opened(pid, machine, time, index);
    hide Opened;
    LogRoundTrip(l, pid, es);
    forall k: nat | DroppedFrom(l, pid, es, k)
      ensures k <= |es| && (BlocksRead(es[..k]) == BlocksOf(es[..k]) <==> forall i :: 0 <= i < k ==> NulFree(es[i]))
    {
      NamesMatter(l, pid, es, k);
    }
  }

  lemma NamesMatter(l: Log, pid: U32, es: seq<Entry>, k: nat)
    requires |l.mem| == SHM_SIZE && DroppedFrom(l, pid, es, k)
    ensures k <= |es| && (BlocksRead(es[..k]) == BlocksOf(es[..k]) <==> forall i :: 0 <= i < k ==> NulFree(es[i]))
  {
    hide NulFree, BlocksRead, BlocksOf, FitsAt;
    AllReadAsLogged(es[..k]);
    assert forall i :: 0 <= i < k ==> es[..k][i] == es[i];
  }

  /** With room for all of them, a first mapping gives back every entry. */
  lemma RoundTrip(pid: U32, machine: U32, time: U64, es: seq<Entry>)
    requires pid > 0 && 0 < |es| <= TWO64
    requires forall i :: 0 <= i < |es| ==> Loggable(es[i]) && NulFree(es[i])
    requires forall i :: 0 <= i < |es| ==> FitsAt(Opened(pid, machine, time, 0), pid, es, i)
    ensures var m := WriteAll(Opened(pid, machine, time, 0), pid, es).mem;
            Read(m, HEADER_SIZE, pid, 0, []) == Done(true, BlocksOf(es))
  {
    RoundTripExactly(pid, machine, time, 0, es);
    assert DroppedFrom(Opened(pid, machine, time, 0), pid, es, |es|);
    assert es[..|es|] == es;
  }

  /** The log of a second mapping is refused, whatever it holds. */
  lemma SecondMappingRefused(pid: U32, machine: U32, time: U64, index: nat, es: seq<Entry>)
    requires pid > 0 && 0 < index && index + |es| <= TWO64
    requires forall i :: 0 <= i < |es| ==> Loggable(es[i])
    ensures var r := Read(WriteAll(Opened(pid, machine, time, index), pid, es).mem, HEADER_SIZE, pid, 0, []);
            r.Done? && !r.ok
  {
    hide Read, WriteAll, Opened;
    RoundTripExactly(pid, machine, time, index, es);
  }

  /** So is a log in which an entry was logged after a dropped one. */
  lemma GapRefused(pid: U32, machine: U32, time: U64, index: nat, es: seq<Entry>, i: nat, j: nat)
    requires pid > 0 && index + |es| <= TWO64 && i < j < |es|
    requires forall k :: 0 <= k < |es| ==> Loggable(es[k])
    requires !FitsAt(Opened(pid, machine, time, index), pid, es, i)
    requires FitsAt(Opened(pid, machine, time, index), pid, es, j)
    ensures var r := Read(WriteAll(Opened(pid, machine, time, index), pid, es).mem, HEADER_SIZE, pid, 0, []);
            r.Done? && !r.ok
  {
    assert |Opened(pid, machine, time, index).mem| == SHM_SIZE;
    hide Read, WriteAll, FitsAt, DroppedFrom, Opened;
    RoundTripExactly(pid, machine, time, index, es);
    NoGap(Opened(pid, machine, time, index), pid, es, i, j);
  }

  lemma NoGap(l: Log, pid: U32, es: seq<Entry>, i: nat, j: nat)
    requires |l.mem| == SHM_SIZE && i < j < |es| && !FitsAt(l, pid, es, i) && FitsAt(l, pid, es, j)
    ensures forall k :: !DroppedFrom(l, pid, es, k)
  {
  }
}
