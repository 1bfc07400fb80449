/** The ELF image that overlay/arkweb/chromium_ext/v8/parse-jitcode.cc prints for the logged
    code, reads back, and answers program counters from. Field offsets and constants are
    those of the ELF Header (chapter 4) and the Program Header (chapter 5) of the System V
    ABI. */
module ElfImage {
  import opened Bytes
  import opened Options
  import opened PerfJitLog

  const EHDR_SIZE := 64
  const PHDR_SIZE := 56
  const PT_LOAD := 1
  const PF_X := 1
  const PF_R := 4
  const ET_EXEC := 2
  const EM_ARM := 40
  const EV_CURRENT := 1
  const EI_VERSION := 6
  const PHNUM_LIMIT := 0x1_0000

  // ---- Image -----------------------------------------------------------------

  /** The source writes the index EI_VERSION where the format has the version itself. */
  function Ident(): (s: seq<Byte>)
    ensures |s| == 16
  {
    [0x7f, 0x45, 0x4c, 0x46, 2, 1, EI_VERSION] + Little(0, 8) + [0]
  }

  function HeadToPhnum(blocks: seq<Block>): (s: seq<Byte>)
    ensures |s| == 56
  {
    Ident() + Little(ET_EXEC, 2) + Little(EM_ARM, 2) + Little(EV_CURRENT, 4)
    + Little(if blocks == [] then 0 else blocks[0].address, 8)
    + Little(EHDR_SIZE, 8) + Little(0, 8) + Little(0, 4) + Little(EHDR_SIZE, 2) + Little(PHDR_SIZE, 2)
  }

  function Ehdr(blocks: seq<Block>): (s: seq<Byte>)
    ensures |s| == EHDR_SIZE
  {
    HeadToPhnum(blocks) + Little(|blocks|, 2) + Little(0, 2) + Little(0, 2) + Little(0, 2)
  }

  function Phdr(b: Block, offset: nat): (s: seq<Byte>)
    ensures |s| == PHDR_SIZE
  {
    Little(PT_LOAD, 4) + Little(PF_X + PF_R, 4) + Little(offset, 8) + Little(b.address, 8) + Little(b.address, 8)
    + Little(|b.code|, 8) + Little(|b.code|, 8) + Little(0x1000, 8)
  }

  /** The code of the first n blocks, end to end. */
  function Codes(blocks: seq<Block>, n: nat): seq<Byte>
    requires n <= |blocks|
  {
    if n == 0 then [] else Codes(blocks, n - 1) + blocks[n - 1].code
  }

  /** Where block i is recorded to start. */
  function OffsetOf(blocks: seq<Block>, i: nat): nat
    requires i <= |blocks|
  {
    EHDR_SIZE + PHDR_SIZE * |blocks| + |Codes(blocks, i)|
  }

  function Phdrs(blocks: seq<Block>, n: nat): (s: seq<Byte>)
    requires n <= |blocks|
    ensures |s| == PHDR_SIZE * n
  {
    if n == 0 then [] else Phdrs(blocks, n - 1) + Phdr(blocks[n - 1], OffsetOf(blocks, n - 1))
  }

  function Image(blocks: seq<Block>): seq<Byte> {
    Ehdr(blocks) + Phdrs(blocks, |blocks|) + Codes(blocks, |blocks|)
  }

  /** Every image says it is a 64-bit file (byte 4), gives 6 as the version of its
      identification (byte 6) where the format has EV_CURRENT, and the 32-bit EM_ARM as its
      machine (bytes 18 and 19). */
  lemma Identification(blocks: seq<Block>)
    ensures var m := Image(blocks);
            |m| >= EHDR_SIZE && m[4] == 2 && m[6] == 6 != EV_CURRENT && Field(m, 18, 2) == EM_ARM
  {
    TwoBytes(EM_ARM);
    var head := HeadToPhnum(blocks);
    assert head[16..18] == Little(ET_EXEC, 2) && head[18..20] == Little(EM_ARM, 2);
    assert head[4] == Ident()[4] && head[6] == Ident()[6];
    var m := Image(blocks);
    hide HeadToPhnum, Phdrs, Codes, Ident;
    assert m[..56] == head;
    assert m[18..20] == m[..56][18..20];
  }

  method GenerateElf(blocks: seq<Block>) returns (out: seq<Byte>)
    ensures out == Image(blocks)
  {
    hide Ehdr, Phdr;
    var fileOffset := EHDR_SIZE + PHDR_SIZE * |blocks|;
    out := Ehdr(blocks);
    for i := 0 to |blocks|
      invariant fileOffset == OffsetOf(blocks, i)
      invariant out == Ehdr(blocks) + Phdrs(blocks, i)
    {
      out := out + Phdr(blocks[i], fileOffset);
      fileOffset := fileOffset + |blocks[i].code|;
    }
    for i := 0 to |blocks|
      invariant out == Ehdr(blocks) + Phdrs(blocks, |blocks|) + Codes(blocks, i)
    {
      out := out + blocks[i].code;
    }
  }

  // ---- Loading ---------------------------------------------------------------

  datatype Segment = Segment(start: U64, end: U64, fileOffset: nat, name: seq<Byte>)

  function SegmentFor(address: U64, size: nat, offset: nat, name: seq<Byte>): Segment {
    Segment(address, (address + size) % TWO64, offset, name)
  }

  /** What the loader stores for the i-th program header, if it is a loadable, executable one. */
  function Loaded(data: seq<Byte>, at: nat, name: seq<Byte>): Option<Segment>
    requires at + PHDR_SIZE <= |data|
  {
    if Field(data, at, 4) == PT_LOAD && Field(data, at + 4, 4) % 2 == PF_X then
      FieldRange(data, at + 16);
      Some(SegmentFor(Field(data, at + 16, 8), Field(data, at + 40, 8), Field(data, at + 8, 8), name))
    else None
  }

  /** The headers the loader reads lie inside the data; it does not check that itself. */
  predicate HeadersInside(data: seq<Byte>) {
    EHDR_SIZE <= |data| && Field(data, 32, 8) + PHDR_SIZE * Field(data, 56, 2) <= |data|
  }

  /** The segment table after n program headers. */
  function Segments(data: seq<Byte>, blocks: seq<Block>, n: nat): map<U64, Segment>
    requires HeadersInside(data) && n <= |blocks| && n <= Field(data, 56, 2)
  {
    if n == 0 then map[]
    else
      var before := Segments(data, blocks, n - 1);
      match Loaded(data, Field(data, 32, 8) + PHDR_SIZE * (n - 1), blocks[n - 1].name)
      case None => before
      case Some(s) => before[s.start := s]
  }

  predicate Contains(s: Segment, pc: U64) { s.start <= pc < s.end }

  /** Of several segments that contain the program counter any one may answer. */
  ghost predicate RightAnswer(t: map<U64, Segment>, pc: U64, answer: Option<seq<Byte>>) {
    && (answer.Some? <==> exists a :: a in t && Contains(t[a], pc))
    && (answer.Some? ==> exists a :: a in t && Contains(t[a], pc) && t[a].name == answer.value)
  }

  /** Header i of the data is of a loadable and executable segment, at this address. */
  ghost predicate Heads(data: seq<Byte>, i: nat, address: nat)
    requires HeadersInside(data) && i < Field(data, 56, 2)
  {
    var at := Field(data, 32, 8) + PHDR_SIZE * i;
    Field(data, at, 4) == 1 && Field(data, at + 4, 4) % 2 == 1 && Field(data, at + 16, 8) == address
  }

  ghost predicate LastHead(data: seq<Byte>, n: nat, i: nat, address: nat)
    requires HeadersInside(data) && n <= Field(data, 56, 2)
  {
    i < n && Heads(data, i, address) && forall j :: i < j < n ==> !Heads(data, j, address)
  }

  ghost function HeadAt(data: seq<Byte>, i: nat, name: seq<Byte>): Segment
    requires HeadersInside(data) && i < Field(data, 56, 2)
  {
    var at := Field(data, 32, 8) + PHDR_SIZE * i;
    FieldRange(data, at + 16);
    var start := Field(data, at + 16, 8);
    Segment(start, (start + Field(data, at + 40, 8)) % TWO64, Field(data, at + 8, 8), name)
  }

  ghost predicate HeadsIn(data: seq<Byte>, blocks: seq<Block>, n: nat, t: map<U64, Segment>)
    requires HeadersInside(data) && n <= |blocks| && n <= Field(data, 56, 2)
  {
    forall a: U64, i: nat :: i < n && LastHead(data, n, i, a) ==> a in t && t[a] == HeadAt(data, i, blocks[i].name)
  }

  ghost predicate OnlyHeads(data: seq<Byte>, n: nat, t: map<U64, Segment>)
    requires HeadersInside(data) && n <= Field(data, 56, 2)
  {
    forall a: U64 :: a in t ==> exists i: nat :: LastHead(data, n, i, a)
  }

  /** The table of any data: an entry for each address of a loadable, executable segment, as
      the last header with that address has it, and no other. */
  ghost predicate TableIs(data: seq<Byte>, blocks: seq<Block>, n: nat, t: map<U64, Segment>)
    requires HeadersInside(data) && n <= |blocks| && n <= Field(data, 56, 2)
  {
    HeadsIn(data, blocks, n, t) && OnlyHeads(data, n, t)
  }

  lemma {:induction false} SegmentsAre(data: seq<Byte>, blocks: seq<Block>, n: nat)
    requires HeadersInside(data) && n <= |blocks| && n <= Field(data, 56, 2)
    ensures TableIs(data, blocks, n, Segments(data, blocks, n))
  {
    hide HeadersInside, Loaded, LastHead, Heads, HeadsIn, OnlyHeads;
    if n == 0 {
      NoSegments(data, blocks);
    } else {
      SegmentsAre(data, blocks, n - 1);
      OneHeadMore(data, blocks, n - 1, n, Segments(data, blocks, n - 1));
    }
  }

  lemma NoSegments(data: seq<Byte>, blocks: seq<Block>)
    requires HeadersInside(data)
    ensures TableIs(data, blocks, 0, map[])
  {
  }

  lemma LoadedHeads(data: seq<Byte>, i: nat, at: nat, name: seq<Byte>, a: nat)
    requires HeadersInside(data) && i < Field(data, 56, 2) && at == Field(data, 32, 8) + PHDR_SIZE * i
    ensures at + PHDR_SIZE <= |data|
    ensures Heads(data, i, a) <==> Loaded(data, at, name).Some? && Loaded(data, at, name).value.start == a
    ensures Loaded(data, at, name).Some? ==> Loaded(data, at, name).value == HeadAt(data, i, name)
  {
    hide Field;
  }

  lemma LastHeadNow(data: seq<Byte>, m: nat, n: nat, i: nat, a: nat)
    requires HeadersInside(data) && n == m + 1 <= Field(data, 56, 2)
    ensures LastHead(data, n, i, a) <==> if Heads(data, m, a) then i == m else LastHead(data, m, i, a)
    ensures LastHead(data, m, i, a) ==> i < m
  {
    hide Heads, Field, HeadersInside;
  }

  lemma OneHeadMore(data: seq<Byte>, blocks: seq<Block>, m: nat, n: nat, t: map<U64, Segment>)
    requires HeadersInside(data) && m < |blocks| && n == m + 1 <= Field(data, 56, 2) && TableIs(data, blocks, m, t)
    ensures var at := Field(data, 32, 8) + PHDR_SIZE * m;
            at + PHDR_SIZE <= |data| &&
            var l := Loaded(data, at, blocks[m].name);
            TableIs(data, blocks, n, if l.Some? then t[l.value.start := l.value] else t)
  {
    var at := Field(data, 32, 8) + PHDR_SIZE * m;
    LoadedHeads(data, m, at, blocks[m].name, 0);
    var l := Loaded(data, at, blocks[m].name);
    forall a: nat ensures Heads(data, m, a) <==> l.Some? && l.value.start == a {
      LoadedHeads(data, m, at, blocks[m].name, a);
    }
    hide HeadersInside, Field, Heads, LastHead, Loaded, HeadAt, HeadsIn, OnlyHeads;
    HeadsStillIn(data, blocks, m, n, t, l);
    StillOnlyHeads(data, m, n, t, l);
  }

  lemma HeadsStillIn(data: seq<Byte>, blocks: seq<Block>, m: nat, n: nat, t: map<U64, Segment>, l: Option<Segment>)
    requires HeadersInside(data) && m < |blocks| && n == m + 1 <= Field(data, 56, 2) && HeadsIn(data, blocks, m, t)
    requires forall a: nat :: Heads(data, m, a) <==> l.Some? && l.value.start == a
    requires l.Some? ==> l.value == HeadAt(data, m, blocks[m].name)
    ensures HeadsIn(data, blocks, n, if l.Some? then t[l.value.start := l.value] else t)
  {
    hide HeadersInside, Field, Heads, LastHead, HeadAt;
    var now := if l.Some? then t[l.value.start := l.value] else t;
    forall a: U64, i: nat | i < n && LastHead(data, n, i, a)
      ensures a in now && now[a] == HeadAt(data, i, blocks[i].name)
    {
      LastHeadNow(data, m, n, i, a);
    }
  }

  lemma StillOnlyHeads(data: seq<Byte>, m: nat, n: nat, t: map<U64, Segment>, l: Option<Segment>)
    requires HeadersInside(data) && n == m + 1 <= Field(data, 56, 2) && OnlyHeads(data, m, t)
    requires forall a: nat :: Heads(data, m, a) <==> l.Some? && l.value.start == a
    ensures OnlyHeads(data, n, if l.Some? then t[l.value.start := l.value] else t)
  {
    hide HeadersInside, Field, Heads, LastHead;
    var now := if l.Some? then t[l.value.start := l.value] else t;
    forall a: U64 | a in now ensures exists i: nat :: LastHead(data, n, i, a) {
      if Heads(data, m, a) {
        LastHeadNow(data, m, n, m, a);
      } else {
        var i: nat :| LastHead(data, m, i, a);
        LastHeadNow(data, m, n, i, a);
      }
    }
  }

  class ElfParser {
    var codeSegments: map<U64, Segment>

    constructor ()
      ensures codeSegments == map[]
    {
      codeSegments := map[];
    }

    method Load(blocks: seq<Block>, data: seq<Byte>) returns (ok: bool)
      requires HeadersInside(data) && codeSegments == map[]
      modifies this
      ensures ok <==> Field(data, 56, 2) == |blocks|
      ensures codeSegments == if ok then Segments(data, blocks, |blocks|) else map[]
      ensures ok ==> TableIs(data, blocks, |blocks|, codeSegments)
    {
      hide Field, Loaded, TableIs;
      var at, count := Field(data, 32, 8), Field(data, 56, 2);
      if count != |blocks| {
        return false;
      }
      for i := 0 to count
        invariant codeSegments == Segments(data, blocks, i)
      {
        var s := Loaded(data, at + PHDR_SIZE * i, blocks[i].name);
        if s.Some? {
          codeSegments := codeSegments[s.value.start := s.value];
        }
      }
      SegmentsAre(data, blocks, |blocks|);
      return true;
    }

    /** The hash table is visited in an order of its own. */
    method GetInstruction(pc: U64) returns (name: Option<seq<Byte>>)
      ensures RightAnswer(codeSegments, pc, name)
    {
      var todo: set<int> := set a | a in codeSegments;
      while exists x :: x in todo
        invariant todo <= codeSegments.Keys
        invariant forall a :: a in codeSegments && a !in todo ==> !Contains(codeSegments[a], pc)
        decreases |todo|
      {
        var a :| a in todo;
        if Contains(codeSegments[a], pc) {
          return Some(codeSegments[a].name);
        }
        todo := todo - {a};
      }
      return None;
    }
  }

  // ---- Agreement -------------------------------------------------------------

  /** The image stays within 64-bit file offsets. */
  predicate Addressable(blocks: seq<Block>) { OffsetOf(blocks, |blocks|) < TWO64 }

  /** The table the blocks themselves describe: of two with one address the later one stays. */
  function Table(blocks: seq<Block>, n: nat): map<U64, Segment>
    requires n <= |blocks|
  {
    if n == 0 then map[]
    else
      var b := blocks[n - 1];
      Table(blocks, n - 1)[b.address := SegmentFor(b.address, |b.code|, OffsetOf(blocks, n - 1), b.name)]
  }

  lemma {:induction false} CodesAt(blocks: seq<Block>, i: nat, n: nat)
    requires i < n <= |blocks|
    ensures |Codes(blocks, i)| + |blocks[i].code| <= |Codes(blocks, n)|
    ensures Codes(blocks, n)[|Codes(blocks, i)|..|Codes(blocks, i)| + |blocks[i].code|] == blocks[i].code
  {
    var lo := |Codes(blocks, i)|;
    var hi := lo + |blocks[i].code|;
    if i < n - 1 {
      CodesAt(blocks, i, n - 1);
      assert Codes(blocks, n)[lo..hi] == Codes(blocks, n - 1)[lo..hi];
    }
  }

  /** The bytes of each block sit at the offset its program header records. */
  lemma CodeAtOffset(blocks: seq<Block>, i: nat)
    requires i < |blocks|
    ensures var at := OffsetOf(blocks, i);
            at + |blocks[i].code| <= |Image(blocks)|
            && Image(blocks)[at..at + |blocks[i].code|] == blocks[i].code
  {
    hide Ehdr, Phdr;
    var n, lo := |blocks|, |Codes(blocks, i)|;
    var head := Ehdr(blocks) + Phdrs(blocks, n);
    CodesAt(blocks, i, n);
    assert Image(blocks) == head + Codes(blocks, n);
    assert Image(blocks)[|head| + lo..|head| + lo + |blocks[i].code|] == Codes(blocks, n)[lo..lo + |blocks[i].code|];
  }

  lemma {:induction false} PhdrsAt(blocks: seq<Block>, i: nat, n: nat)
    requires i < n <= |blocks|
    ensures Phdrs(blocks, n)[PHDR_SIZE * i..PHDR_SIZE * i + PHDR_SIZE] == Phdr(blocks[i], OffsetOf(blocks, i))
  {
    hide Phdr, OffsetOf;
    var lo := PHDR_SIZE * i;
    if i < n - 1 {
      PhdrsAt(blocks, i, n - 1);
      assert Phdrs(blocks, n)[lo..lo + PHDR_SIZE] == Phdrs(blocks, n - 1)[lo..lo + PHDR_SIZE];
    }
  }

  lemma TwoBytes(n: nat)
    ensures Value(Little(n, 2)) == n % PHNUM_LIMIT
  {
    var s := Little(n, 2);
    assert s[1..] == Little(n / 256, 1) && s[1..][1..] == [];
    assert Value(s[1..]) == s[1];
  }

  /** The file header records where the program headers are, and their number modulo 65536. */
  lemma EhdrFields(blocks: seq<Block>)
    ensures Field(Ehdr(blocks), 32, 8) == EHDR_SIZE
    ensures Field(Ehdr(blocks), 56, 2) == |blocks| % PHNUM_LIMIT
  {
    hide Little, Field;
    EhdrPlaces(blocks);
    Powers();
    FieldSpelt(Ehdr(blocks), 32, EHDR_SIZE, 8);
    hide Ehdr;
    TwoByteField(Ehdr(blocks), 56, |blocks|);
  }

  lemma EhdrPlaces(blocks: seq<Block>)
    ensures Ehdr(blocks)[32..40] == Little(EHDR_SIZE, 8) && Ehdr(blocks)[56..58] == Little(|blocks|, 2)
  {
    HeadPlaces(blocks);
    hide Little, HeadToPhnum;
    var head, count, tail := HeadToPhnum(blocks), Little(|blocks|, 2), Little(0, 2);
    Within(head + count + tail, tail, 56, 58);
    Within(head + count, tail, 56, 58);
    Within(head + count + tail + tail, tail, 56, 58);
    Within(head + count + tail + tail, tail, 32, 40);
    Within(head + count + tail, tail, 32, 40);
    Within(head + count, tail, 32, 40);
    Within(head, count, 32, 40);
    AtTheEnd(head, count);
  }

  lemma AtTheEnd(a: seq<Byte>, b: seq<Byte>)
    ensures (a + b)[|a|..|a| + |b|] == b
  {
  }

  lemma Within(a: seq<Byte>, b: seq<Byte>, lo: nat, hi: nat)
    requires lo <= hi <= |a|
    ensures (a + b)[lo..hi] == a[lo..hi]
  {
  }

  lemma TwoByteField(m: seq<Byte>, at: nat, n: nat)
    requires at + 2 <= |m| && m[at..at + 2] == Little(n, 2)
    ensures Field(m, at, 2) == n % PHNUM_LIMIT
  {
    TwoBytes(n);
  }

  lemma ImageHeader(blocks: seq<Block>)
    ensures HeadersInside(Image(blocks))
    ensures Field(Image(blocks), 32, 8) == EHDR_SIZE && Field(Image(blocks), 56, 2) == |blocks| % PHNUM_LIMIT
  {
    EhdrFields(blocks);
    hide Ehdr, Phdr, Field;
    var m := Image(blocks);
    assert m[0..EHDR_SIZE] == Ehdr(blocks);
    hide Image;
    FieldInside(m, 0, EHDR_SIZE, 32, 8);
    FieldInside(m, 0, EHDR_SIZE, 56, 2);
  }

  lemma PhdrPlace(blocks: seq<Block>, i: nat)
    requires i < |blocks|
    ensures var at := EHDR_SIZE + PHDR_SIZE * i;
            && at + PHDR_SIZE <= |Image(blocks)|
            && Image(blocks)[at..at + PHDR_SIZE] == Phdr(blocks[i], OffsetOf(blocks, i))
  {
    PhdrsAt(blocks, i, |blocks|);
    hide Ehdr, Phdr, Phdrs, Codes, OffsetOf;
    MiddleSlice(Ehdr(blocks), Phdrs(blocks, |blocks|), Codes(blocks, |blocks|),
                PHDR_SIZE * i, PHDR_SIZE * i + PHDR_SIZE);
  }

  lemma LoadedFrom(m: seq<Byte>, at: nat, b: Block, offset: nat)
    requires at + PHDR_SIZE <= |m| && m[at..at + PHDR_SIZE] == Phdr(b, offset)
    requires offset < TWO64 && |b.code| < TWO64
    ensures Loaded(m, at, b.name) == Some(SegmentFor(b.address, |b.code|, offset, b.name))
  {
    hide Phdr, Field;
    PhdrSays(m, at, b, offset);
  }

  /** The loader reads back from its header exactly what the block is. */
  lemma LoadedBack(blocks: seq<Block>, i: nat)
    requires i < |blocks| && Addressable(blocks)
    ensures var b, at := blocks[i], EHDR_SIZE + PHDR_SIZE * i;
            at + PHDR_SIZE <= |Image(blocks)|
            && Loaded(Image(blocks), at, b.name) == Some(SegmentFor(b.address, |b.code|, OffsetOf(blocks, i), b.name))
  {
    CodesAt(blocks, i, |blocks|);
    PhdrPlace(blocks, i);
    hide Image, Phdr, Loaded;
    LoadedFrom(Image(blocks), EHDR_SIZE + PHDR_SIZE * i, blocks[i], OffsetOf(blocks, i));
  }

  // ---- What the headers say ----------------------------------------------------

  lemma PhdrHalves(b: Block, offset: nat)
    ensures var h := Phdr(b, offset);
            && h[0..4] == Little(PT_LOAD, 4) && h[4..8] == Little(PF_X + PF_R, 4) && h[8..16] == Little(offset, 8)
            && h[16..24] == Little(b.address, 8) && h[24..32] == Little(b.address, 8)
            && h[32..40] == Little(|b.code|, 8) && h[40..48] == Little(|b.code|, 8) && h[48..56] == Little(0x1000, 8)
  {
    hide Little;
    var p1 := Little(PT_LOAD, 4) + Little(PF_X + PF_R, 4);
    var p2 := p1 + Little(offset, 8);
    var p3 := p2 + Little(b.address, 8);
    var p4 := p3 + Little(b.address, 8);
    var p5 := p4 + Little(|b.code|, 8);
    var p6 := p5 + Little(|b.code|, 8);
    var h := p6 + Little(0x1000, 8);
    assert h == Phdr(b, offset);
    hide Phdr;
    assert p1[0..4] == Little(PT_LOAD, 4) && p1[4..8] == Little(PF_X + PF_R, 4);
    assert h[..8] == p1 && h[..16] == p2 && h[..24] == p3 && h[..32] == p4 && h[..40] == p5 && h[..48] == p6;
    assert h[0..4] == h[..8][0..4] && h[4..8] == h[..8][4..8];
    assert h[8..16] == h[..16][8..16] && h[16..24] == h[..24][16..24] && h[24..32] == h[..32][24..32];
    assert h[32..40] == h[..40][32..40] && h[40..48] == h[..48][40..48];
  }

  lemma PlacedField(m: seq<Byte>, at: nat, p: seq<Byte>, lo: nat, w: nat, n: nat)
    requires at + |p| <= |m| && m[at..at + |p|] == p && lo + w <= |p| && p[lo..lo + w] == Little(n, w)
    requires n < Pow256(w)
    ensures Field(m, at + lo, w) == n
  {
    hide Little, Pow256;
    assert m[at + lo..at + lo + w] == p[lo..lo + w] by {
      forall k | lo <= k < lo + w ensures m[at + k] == p[k] {
        assert m[at..at + |p|][k] == m[at + k];
      }
    }
    FieldSpelt(m, at + lo, n, w);
  }

  /** All of the program header of a block: loadable, readable and executable; at the block's
      own offset and, in memory, its own address; as long as its code; aligned to pages. */
  lemma ProgramHeader(blocks: seq<Block>, i: nat)
    requires i < |blocks| && Addressable(blocks)
    ensures var m, at, b := Image(blocks), EHDR_SIZE + PHDR_SIZE * i, blocks[i];
            && at + PHDR_SIZE <= |m|
            && Field(m, at, 4) == 1 && Field(m, at + 4, 4) == 1 + 4 && Field(m, at + 8, 8) == OffsetOf(blocks, i)
            && Field(m, at + 16, 8) == b.address == Field(m, at + 24, 8)
            && Field(m, at + 32, 8) == |b.code| == Field(m, at + 40, 8) && Field(m, at + 48, 8) == 4096
  {
    CodesAt(blocks, i, |blocks|);
    PhdrPlace(blocks, i);
    hide Image, Phdr, Field, Phdrs, Codes, OffsetOf;
    PhdrSays(Image(blocks), EHDR_SIZE + PHDR_SIZE * i, blocks[i], OffsetOf(blocks, i));
  }

  lemma PhdrSays(m: seq<Byte>, at: nat, b: Block, offset: nat)
    requires at + PHDR_SIZE <= |m| && m[at..at + PHDR_SIZE] == Phdr(b, offset)
    requires offset < TWO64 && |b.code| < TWO64
    ensures Field(m, at, 4) == 1 && Field(m, at + 4, 4) == 1 + 4 && Field(m, at + 8, 8) == offset
    ensures Field(m, at + 16, 8) == b.address == Field(m, at + 24, 8)
    ensures Field(m, at + 32, 8) == |b.code| == Field(m, at + 40, 8) && Field(m, at + 48, 8) == 4096
  {
    hide Phdr, Little, Field, Pow256;
    var p := Phdr(b, offset);
    PhdrHalves(b, offset);
    Powers();
    PlacedField(m, at, p, 0, 4, PT_LOAD);
    PlacedField(m, at, p, 4, 4, PF_X + PF_R);
    PlacedField(m, at, p, 8, 8, offset);
    PlacedField(m, at, p, 16, 8, b.address);
    PlacedField(m, at, p, 24, 8, b.address);
    PlacedField(m, at, p, 32, 8, |b.code|);
    PlacedField(m, at, p, 40, 8, |b.code|);
    PlacedField(m, at, p, 48, 8, 0x1000);
  }

  lemma HeadPlaces(blocks: seq<Block>)
    ensures var h := HeadToPhnum(blocks);
            && h[0..16] == Ident() && h[16..18] == Little(ET_EXEC, 2) && h[18..20] == Little(EM_ARM, 2)
            && h[20..24] == Little(EV_CURRENT, 4)
            && h[24..32] == Little(if blocks == [] then 0 else blocks[0].address, 8)
            && h[32..40] == Little(EHDR_SIZE, 8) && h[40..48] == Little(0, 8) && h[48..52] == Little(0, 4)
            && h[52..54] == Little(EHDR_SIZE, 2) && h[54..56] == Little(PHDR_SIZE, 2)
  {
    hide Little, Ident;
    var entry := if blocks == [] then 0 else blocks[0].address;
    var p1 := Ident() + Little(ET_EXEC, 2);
    var p2 := p1 + Little(EM_ARM, 2);
    var p3 := p2 + Little(EV_CURRENT, 4);
    var p4 := p3 + Little(entry, 8);
    var p5 := p4 + Little(EHDR_SIZE, 8);
    var p6 := p5 + Little(0, 8);
    var p7 := p6 + Little(0, 4);
    var p8 := p7 + Little(EHDR_SIZE, 2);
    var h := p8 + Little(PHDR_SIZE, 2);
    assert h == HeadToPhnum(blocks);
    hide HeadToPhnum;
    assert p1[0..16] == Ident() && p1[16..18] == Little(ET_EXEC, 2);
    assert h[..18] == p1 && h[..20] == p2 && h[..24] == p3 && h[..32] == p4 && h[..40] == p5 && h[..48] == p6;
    assert h[..52] == p7 && h[..54] == p8;
    assert h[0..16] == h[..18][0..16] && h[16..18] == h[..18][16..18] && h[18..20] == h[..20][18..20];
    assert h[20..24] == h[..24][20..24] && h[24..32] == h[..32][24..32] && h[32..40] == h[..40][32..40];
    assert h[40..48] == h[..48][40..48] && h[48..52] == h[..52][48..52] && h[52..54] == h[..54][52..54];
  }

  /** All of the file header before the number of program headers: the magic bytes, an
      executable, the entry at the first block, the program headers right behind, no
      sections, and the sizes of the headers. */
  lemma FileHeader(blocks: seq<Block>)
    ensures var m := Image(blocks);
            && |m| >= EHDR_SIZE && m[0..7] == [0x7f, 'E' as int, 'L' as int, 'F' as int, 2, 1, 6]
            && (forall k :: 7 <= k < 16 ==> m[k] == 0)
            && Field(m, 16, 2) == 2 && Field(m, 18, 2) == 40 && Field(m, 20, 4) == 1
            && Field(m, 24, 8) == (if blocks == [] then 0 else blocks[0].address)
            && Field(m, 32, 8) == 64 && Field(m, 40, 8) == 0 && Field(m, 48, 4) == 0
            && Field(m, 52, 2) == 64 && Field(m, 54, 2) == 56
  {
    HeadPlaces(blocks);
    Powers();
    IdentBytes();
    var h, m := HeadToPhnum(blocks), Image(blocks);
    assert m[0..|h|] == h by {
      hide Little, HeadToPhnum, Phdrs, Codes;
    }
    hide Image, Ehdr, HeadToPhnum, Little, Field, Ident, Codes;
    assert forall k :: 0 <= k < 16 ==> m[k] == m[0..|h|][k] == h[0..16][k];
    PlacedField(m, 0, h, 16, 2, ET_EXEC);
    PlacedField(m, 0, h, 18, 2, EM_ARM);
    PlacedField(m, 0, h, 20, 4, EV_CURRENT);
    PlacedField(m, 0, h, 24, 8, if blocks == [] then 0 else blocks[0].address);
    PlacedField(m, 0, h, 32, 8, EHDR_SIZE);
    PlacedField(m, 0, h, 40, 8, 0);
    PlacedField(m, 0, h, 48, 4, 0);
    PlacedField(m, 0, h, 52, 2, EHDR_SIZE);
    PlacedField(m, 0, h, 54, 2, PHDR_SIZE);
  }

  lemma IdentBytes()
    ensures Ident()[0..7] == [0x7f, 'E' as int, 'L' as int, 'F' as int, 2, 1, 6]
    ensures forall k :: 7 <= k < 16 ==> Ident()[k] == 0
  {
    assert forall k :: 0 <= k < 8 ==> Little(0, 8)[k] == 0;
  }

  lemma {:induction false} SegmentsBack(blocks: seq<Block>, n: nat)
    requires Addressable(blocks) && n <= |blocks| < PHNUM_LIMIT
    requires HeadersInside(Image(blocks)) && Field(Image(blocks), 32, 8) == EHDR_SIZE
    requires Field(Image(blocks), 56, 2) == |blocks|
    ensures Segments(Image(blocks), blocks, n) == Table(blocks, n)
  {
    hide Image, Loaded, OffsetOf, HeadersInside, Addressable;
    if n > 0 {
      SegmentsBack(blocks, n - 1);
      LoadedBack(blocks, n - 1);
    }
  }

  /** Load accepts the image of the same blocks exactly when there are fewer than 65536 of
      them, and then its table is the one the blocks describe. */
  lemma LoadsBack(blocks: seq<Block>)
    requires Addressable(blocks)
    ensures HeadersInside(Image(blocks))
    ensures Field(Image(blocks), 56, 2) == |blocks| <==> |blocks| < PHNUM_LIMIT
    ensures |blocks| < PHNUM_LIMIT ==> Segments(Image(blocks), blocks, |blocks|) == Table(blocks, |blocks|)
  {
    ImageHeader(blocks);
    hide Image, Segments, Table, OffsetOf, Addressable, Field, HeadersInside;
    if |blocks| < PHNUM_LIMIT {
      SegmentsBack(blocks, |blocks|);
    }
  }

  // ---- Lookup ----------------------------------------------------------------

  predicate Covers(b: Block, pc: U64) { b.address <= pc < b.address + |b.code| }

  /** Nonempty, not wrapping round the address space, and no two share an address. */
  ghost predicate Separate(blocks: seq<Block>) {
    && (forall i :: 0 <= i < |blocks| ==> blocks[i].code != [] && blocks[i].address + |blocks[i].code| < TWO64)
    && (forall i, j, pc :: 0 <= i < j < |blocks| && Covers(blocks[i], pc) ==> !Covers(blocks[j], pc))
  }

  lemma {:induction false} TableOf(blocks: seq<Block>, n: nat)
    requires Separate(blocks) && n <= |blocks|
    ensures forall a :: a in Table(blocks, n) <==> exists i :: 0 <= i < n && blocks[i].address == a
    ensures forall i :: 0 <= i < n ==>
      && blocks[i].address in Table(blocks, n)
      && Table(blocks, n)[blocks[i].address]
         == SegmentFor(blocks[i].address, |blocks[i].code|, OffsetOf(blocks, i), blocks[i].name)
  {
    hide OffsetOf;
    if n > 0 {
      TableOf(blocks, n - 1);
      forall i | 0 <= i < n - 1 ensures blocks[i].address != blocks[n - 1].address {
        assert Covers(blocks[i], blocks[i].address);
        assert Covers(blocks[n - 1], blocks[n - 1].address);
      }
    }
  }

  lemma ContainsIsCovers(b: Block, offset: nat, pc: U64)
    requires b.address + |b.code| < TWO64
    ensures Contains(SegmentFor(b.address, |b.code|, offset, b.name), pc) <==> Covers(b, pc)
  {
  }

  /** For separate blocks the table answers a program counter with the one block that covers
      it, and with nothing when none does: whichever segment is found first. */
  lemma LookupExact(blocks: seq<Block>, pc: U64, answer: Option<seq<Byte>>)
    requires Separate(blocks) && RightAnswer(Table(blocks, |blocks|), pc, answer)
    ensures forall i :: 0 <= i < |blocks| && Covers(blocks[i], pc) ==> answer == Some(blocks[i].name)
    ensures (forall i :: 0 <= i < |blocks| ==> !Covers(blocks[i], pc)) ==> answer == None
  {
    var t := Table(blocks, |blocks|);
    TableOf(blocks, |blocks|);
    forall i | 0 <= i < |blocks|
      ensures blocks[i].address in t && t[blocks[i].address].name == blocks[i].name
      ensures Contains(t[blocks[i].address], pc) <==> Covers(blocks[i], pc)
    {
      ContainsIsCovers(blocks[i], OffsetOf(blocks, i), pc);
    }
    hide Table, OffsetOf, Contains, Covers, SegmentFor;
    if answer.Some? {
      var a :| a in t && Contains(t[a], pc) && t[a].name == answer.value;
      var i :| 0 <= i < |blocks| && blocks[i].address == a;
      assert Covers(blocks[i], pc) && answer == Some(blocks[i].name);
      forall j | 0 <= j < |blocks| && Covers(blocks[j], pc) ensures j == i {}
    }
  }

  /** Print, load and look up, as the symbol extractor does. */
  method Extract(blocks: seq<Block>, pc: U64) returns (loaded: bool, name: Option<seq<Byte>>)
    requires Addressable(blocks)
    ensures loaded <==> |blocks| < PHNUM_LIMIT
    ensures loaded && Separate(blocks) ==>
      && (forall i :: 0 <= i < |blocks| && Covers(blocks[i], pc) ==> name == Some(blocks[i].name))
      && ((forall i :: 0 <= i < |blocks| ==> !Covers(blocks[i], pc)) ==> name == None)
  {
    hide Image, OffsetOf;
    LoadsBack(blocks);
    var image := GenerateElf(blocks);
    var parser := new ElfParser();
    loaded := parser.Load(blocks, image);
    if !loaded {
      return loaded, None;
    }
    name := parser.GetInstruction(pc);
    if Separate(blocks) {
      LookupExact(blocks, pc, name);
    }
  }
}
