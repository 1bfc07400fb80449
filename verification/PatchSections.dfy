/** Patches as per-file sections (changed_sections in
    scripts/refresh-incremental-patch.py): splitting, the ordered dictionary of sections,
    and what skipping the unchanged ones does to a tree. */
module PatchSections {
  import opened Options

  /** A line of a patch: one that begins a section, with the file it names, or any other.
      `ended` says whether a line break follows, which only the last line can lack. */
  datatype Line = Header(path: string, ended: bool) | Text(text: string, ended: bool)

  type Chunk = seq<Line>

  // ---- Splitting -------------------------------------------------------------

  /** Where the first header at or after i is, or the end. */
  function NextHeader(data: seq<Line>, i: nat): (n: nat)
    requires i <= |data|
    ensures i <= n <= |data|
    ensures n < |data| ==> data[n].Header?
    ensures forall k :: i <= k < n ==> data[k].Text?
    decreases |data| - i
  {
    if i == |data| || data[i].Header? then i else NextHeader(data, i + 1)
  }

  /** Splitting in front of every header line. */
  function Chunks(data: seq<Line>): seq<Chunk>
    decreases |data|
  {
    if data == [] then [] else [data[..NextHeader(data, 1)]] + Chunks(data[NextHeader(data, 1)..])
  }

  function Join(chunks: seq<Chunk>): seq<Line> {
    if chunks == [] then [] else chunks[0] + Join(chunks[1..])
  }

  /** A header and nothing but other lines after it. */
  predicate IsSection(c: Chunk) {
    c != [] && c[0].Header? && forall i :: 0 < i < |c| ==> c[i].Text?
  }

  lemma {:induction false} SplittingIsLossless(data: seq<Line>)
    ensures Join(Chunks(data)) == data
    decreases |data|
  {
    if data != [] {
      SplittingIsLossless(data[NextHeader(data, 1)..]);
    }
  }

  /** Each chunk but the first is a section, and so is the first if the data begins with one. */
  lemma {:induction false} ChunksAreSections(data: seq<Line>)
    ensures forall i :: 0 <= i < |Chunks(data)| && (i > 0 || data[0].Header?) ==> IsSection(Chunks(data)[i])
    ensures data != [] ==> |Chunks(data)| > 0 && Chunks(data)[0] != [] && Chunks(data)[0][0] == data[0]
    decreases |data|
  {
    if data != [] {
      var n := NextHeader(data, 1);
      ChunksAreSections(data[n..]);
      var rest := Chunks(data[n..]);
      forall i | 0 <= i < |Chunks(data)| && (i > 0 || data[0].Header?) ensures IsSection(Chunks(data)[i]) {
        if i > 0 {
          assert Chunks(data)[i] == rest[i - 1];
        }
      }
    }
  }

  lemma HeaderAfter(a: seq<Line>, b: seq<Line>)
    requires IsSection(a) && (b == [] || b[0].Header?)
    ensures NextHeader(a + b, 1) == |a|
  {
    assert forall k :: 0 < k < |a| ==> (a + b)[k] == a[k];
    assert b != [] ==> (a + b)[|a|] == b[0];
  }

  /** Joining sections and splitting again gives the sections back. */
  lemma {:induction false} SectionsSurviveJoining(chunks: seq<Chunk>)
    requires forall i :: 0 <= i < |chunks| ==> IsSection(chunks[i])
    ensures Chunks(Join(chunks)) == chunks
    decreases |chunks|
  {
    if chunks != [] {
      var a, b := chunks[0], Join(chunks[1..]);
      SectionsSurviveJoining(chunks[1..]);
      if |chunks| > 1 {
        assert b == chunks[1] + Join(chunks[1..][1..]);
      }
      HeaderAfter(a, b);
      assert (a + b)[|a|..] == b && (a + b)[..|a|] == a;
    }
  }

  // ---- The dictionary --------------------------------------------------------

  function PathOf(c: Chunk): string { if c != [] && c[0].Header? then c[0].path else [] }

  /** Sections for files of their own: an ordered dictionary, each section being kept under
      the file its header names. */
  ghost predicate IsDict(cs: seq<Chunk>) {
    && (forall i :: 0 <= i < |cs| ==> IsSection(cs[i]))
    && forall i, j :: 0 <= i < j < |cs| ==> PathOf(cs[i]) != PathOf(cs[j])
  }

  /** Nothing for a legacy patch, or one with two sections for a file; otherwise its sections
      in order. */
  method Sections(data: seq<Line>) returns (r: Option<seq<Chunk>>)
    ensures r.Some? <==> IsDict(Chunks(data))
    ensures r.Some? ==> r.value == Chunks(data)
  {
    ChunksAreSections(data);
    var chunks := Chunks(data);
    var result: seq<Chunk> := [];
    for n := 0 to |chunks|
      invariant result == chunks[..n] && IsDict(result)
    {
      var chunk := chunks[n];
      if chunk == [] || !chunk[0].Header? {
        assert !IsSection(chunks[n]);
        return None;
      }
      if exists i :: 0 <= i < |result| && PathOf(result[i]) == PathOf(chunk) {
        return None;
      }
      assert IsSection(chunks[n]);
      result := result + [chunk];
    }
    return Some(result);
  }

  ghost function AsMap(cs: seq<Chunk>): map<string, Chunk> {
    if cs == [] then map[] else AsMap(cs[..|cs| - 1])[PathOf(cs[|cs| - 1]) := cs[|cs| - 1]]
  }

  lemma {:induction false} AsMapHolds(cs: seq<Chunk>)
    requires IsDict(cs)
    ensures forall i :: 0 <= i < |cs| ==> PathOf(cs[i]) in AsMap(cs) && AsMap(cs)[PathOf(cs[i])] == cs[i]
    ensures forall p :: p in AsMap(cs) ==> exists i :: 0 <= i < |cs| && PathOf(cs[i]) == p
  {
    if cs != [] {
      var rest := cs[..|cs| - 1];
      AsMapHolds(rest);
      forall p | p in AsMap(cs) ensures exists i :: 0 <= i < |cs| && PathOf(cs[i]) == p {
        if p in AsMap(rest) {
          var i :| 0 <= i < |rest| && PathOf(rest[i]) == p;
          assert PathOf(cs[i]) == p;
        } else {
          assert PathOf(cs[|cs| - 1]) == p;
        }
      }
    }
  }

  // ---- What a patch does to a tree ---------------------------------------------

  datatype Body = Body(data: string, mode: nat)

  type Tree = map<string, Body>

  function At(t: Tree, p: string): Option<Body> { if p in t then Some(t[p]) else None }

  function Section(m: map<string, Chunk>, p: string): Option<Chunk> { if p in m then Some(m[p]) else None }

  /** One section's effect on its file, in one direction: the file may be absent before or
      after, and the section may not fit. */
  type Effect = (Chunk, Option<Body>) -> Option<Option<Body>>

  /** Applying a section undoes reversing it, or does not fit: sections are reversed without
      looking at their context, and applied with it. */
  ghost predicate Undoes(apply: Effect, reverse: Effect) {
    forall c, b, g :: reverse(c, b) == Some(g) ==> apply(c, g) == None || apply(c, g) == Some(b)
  }

  /** A section, if there is one, turns a file into another. */
  predicate Turns(effect: Effect, c: Option<Chunk>, b: Option<Body>, g: Option<Body>) {
    if c.None? then g == b else effect(c.value, b) == Some(g)
  }

  /** Every section fits its file in t, and u is t with those files replaced. */
  ghost predicate Yields(effect: Effect, m: map<string, Chunk>, t: Tree, u: Tree) {
    forall p :: Turns(effect, Section(m, p), At(t, p), At(u, p))
  }

  /** The sections of `a` that are not the same in `b`, and those that are. */
  ghost function Changed(a: map<string, Chunk>, b: map<string, Chunk>): (m: map<string, Chunk>)
    ensures forall p :: Section(m, p) == if Section(a, p) == Section(b, p) then None else Section(a, p)
  {
    map p | p in a && Section(a, p) != Section(b, p) :: a[p]
  }

  ghost function Unchanged(a: map<string, Chunk>, b: map<string, Chunk>): (m: map<string, Chunk>)
    ensures forall p :: Section(m, p) == if Section(a, p) == Section(b, p) then Section(a, p) else None
  {
    map p | p in a && Section(a, p) == Section(b, p) :: a[p]
  }

  /** The tree that is w on the files with a section in m, and t elsewhere. */
  ghost function Mixed(t: Tree, w: Tree, m: map<string, Chunk>): (x: Tree)
    ensures forall p :: At(x, p) == if Section(m, p).Some? then At(w, p) else At(t, p)
  {
    map p | p in t.Keys + w.Keys && (if p in m then p in w else p in t) :: if p in m then w[p] else t[p]
  }

  lemma WholeToSkip(apply: Effect, reverse: Effect, a: map<string, Chunk>, b: map<string, Chunk>,
                    t: Tree, w: Tree, v: Tree)
    requires Undoes(apply, reverse) && Yields(reverse, a, t, w) && Yields(apply, b, w, v)
    ensures Restores(apply, reverse, Unchanged(a, b), t)
    ensures exists x :: Yields(reverse, Changed(a, b), t, x) && Yields(apply, Changed(b, a), x, v)
  {
    var u, x := Mixed(t, w, Unchanged(a, b)), Mixed(t, w, Changed(a, b));
    hide Mixed, Changed, Unchanged, At, Section;
    forall p ensures
      && Turns(reverse, Section(Unchanged(a, b), p), At(t, p), At(u, p))
      && Turns(apply, Section(Unchanged(a, b), p), At(u, p), At(t, p))
      && Turns(reverse, Section(Changed(a, b), p), At(t, p), At(x, p))
      && Turns(apply, Section(Changed(b, a), p), At(x, p), At(v, p))
    {
      assert Turns(reverse, Section(a, p), At(t, p), At(w, p)) && Turns(apply, Section(b, p), At(w, p), At(v, p));
    }
    assert Yields(reverse, Unchanged(a, b), t, u);
    assert Yields(reverse, Changed(a, b), t, x);
  }

  /** This direction asks nothing of git. */
  lemma SkipToWhole(apply: Effect, reverse: Effect, a: map<string, Chunk>, b: map<string, Chunk>,
                    t: Tree, u: Tree, x: Tree, v: Tree)
    requires Yields(reverse, Unchanged(a, b), t, u) && Yields(apply, Unchanged(a, b), u, t)
    requires Yields(reverse, Changed(a, b), t, x) && Yields(apply, Changed(b, a), x, v)
    ensures exists w :: Yields(reverse, a, t, w) && Yields(apply, b, w, v)
  {
    var w := Mixed(x, u, Unchanged(a, b));
    hide Mixed, Changed, Unchanged, At, Section;
    forall p ensures
      && Turns(reverse, Section(a, p), At(t, p), At(w, p))
      && Turns(apply, Section(b, p), At(w, p), At(v, p))
    {
      assert Turns(reverse, Section(Unchanged(a, b), p), At(t, p), At(u, p));
      assert Turns(apply, Section(Unchanged(a, b), p), At(u, p), At(t, p));
      assert Turns(reverse, Section(Changed(a, b), p), At(t, p), At(x, p));
      assert Turns(apply, Section(Changed(b, a), p), At(x, p), At(v, p));
    }
    assert Yields(reverse, a, t, w);
  }

  /** These sections can be reversed and applied again. */
  ghost predicate Restores(apply: Effect, reverse: Effect, m: map<string, Chunk>, t: Tree) {
    exists u :: Yields(reverse, m, t, u) && Yields(apply, m, u, t)
  }

  /** What reversing all of `a` and then applying all of `b` makes of t. */
  ghost predicate WholeYields(apply: Effect, reverse: Effect, a: map<string, Chunk>, b: map<string, Chunk>,
                            t: Tree, v: Tree)
  {
    exists w :: Yields(reverse, a, t, w) && Yields(apply, b, w, v)
  }

  /** What is made of t when the unchanged sections are left alone. */
  ghost predicate SkipYields(apply: Effect, reverse: Effect, a: map<string, Chunk>, b: map<string, Chunk>,
                           t: Tree, v: Tree)
  {
    WholeYields(apply, reverse, Changed(a, b), Changed(b, a), t, v)
  }

  /** Replacing the whole gives a tree exactly when leaving the unchanged sections alone gives
      it and those sections can be reversed and applied again. The replacement only checks
      the reversing: where later patches changed the context, skipping succeeds and the whole
      fails. */
  lemma SkippingIsExact(apply: Effect, reverse: Effect, a: map<string, Chunk>, b: map<string, Chunk>, t: Tree, v: Tree)
    requires Undoes(apply, reverse)
    ensures WholeYields(apply, reverse, a, b, t, v)
        <==> Restores(apply, reverse, Unchanged(a, b), t) && SkipYields(apply, reverse, a, b, t, v)
  {
    hide Undoes, Yields, Changed, Unchanged;
    if w :| Yields(reverse, a, t, w) && Yields(apply, b, w, v) {
      WholeToSkip(apply, reverse, a, b, t, w, v);
    }
    if u :| Yields(reverse, Unchanged(a, b), t, u) && Yields(apply, Unchanged(a, b), u, t) {
      if x :| Yields(reverse, Changed(a, b), t, x) && Yields(apply, Changed(b, a), x, v) {
        SkipToWhole(apply, reverse, a, b, t, u, x, v);
      }
    }
  }

  /** Git on a section that adds an x behind a c: reversed without its context it takes the x
      from a line that begins otherwise too, and applied it needs the c. */
  function WithContext(c: Chunk, b: Option<Body>): Option<Option<Body>> {
    if b.Some? && b.value.data == "c" then Some(Some(b.value.(data := "cx"))) else None
  }

  function WithoutContext(c: Chunk, b: Option<Body>): Option<Option<Body>> {
    if b.Some? && b.value.data == "cx" then Some(Some(b.value.(data := "c")))
    else if b.Some? && b.value.data == "dx" then Some(Some(b.value.(data := "d")))
    else None
  }

  /** A section whose context a later patch changed: it can be applied and reversed, as it
      once was; what stands there now can be reversed, and not applied again. Skipping it
      keeps the tree, replacing the whole fails. */
  lemma OnlySkippingSucceeds(p: string, c: Chunk, mode: nat)
    ensures var m, t, u := map[p := c], map[p := Body("dx", mode)], map[p := Body("d", mode)];
            && Undoes(WithContext, WithoutContext)
            && WithContext(c, Some(Body("c", mode))) == Some(Some(Body("cx", mode)))
            && WithoutContext(c, Some(Body("cx", mode))) == Some(Some(Body("c", mode)))
            && Unchanged(m, m) == m && Yields(WithoutContext, m, t, u)
            && SkipYields(WithContext, WithoutContext, m, m, t, t)
            && forall v :: !WholeYields(WithContext, WithoutContext, m, m, t, v)
  {
    var m, t, u := map[p := c], map[p := Body("dx", mode)], map[p := Body("d", mode)];
    ContextUndoes();
    ContextLost(c, mode);
    hide WithContext, WithoutContext;
    assert Unchanged(m, m) == m && Changed(m, m) == map[];
    assert Yields(WithoutContext, m, t, u);
    assert Yields(WithoutContext, Changed(m, m), t, t) && Yields(WithContext, Changed(m, m), t, t);
    forall v ensures !WholeYields(WithContext, WithoutContext, m, m, t, v) {
      forall w | Yields(WithoutContext, m, t, w) ensures !Yields(WithContext, m, w, v) {
        assert Turns(WithoutContext, Section(m, p), At(t, p), At(w, p));
        assert !Turns(WithContext, Section(m, p), At(w, p), At(v, p));
      }
    }
  }

  lemma ContextUndoes()
    ensures Undoes(WithContext, WithoutContext)
  {
  }

  lemma ContextLost(c: Chunk, mode: nat)
    ensures WithContext(c, Some(Body("c", mode))) == Some(Some(Body("cx", mode)))
    ensures WithoutContext(c, Some(Body("cx", mode))) == Some(Some(Body("c", mode)))
    ensures WithoutContext(c, Some(Body("dx", mode))) == Some(Some(Body("d", mode)))
    ensures WithContext(c, Some(Body("d", mode))) == None
  {
    assert "d"[0] != "c"[0] && "dx"[0] != "cx"[0];
  }
}
