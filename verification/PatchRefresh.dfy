/** Replacing an applied patch (refresh in scripts/refresh-incremental-patch.py): unchanged
    sections stay applied, a failure puts every touched file back, and a file that ends up
    as it was keeps its times. */
module PatchRefresh {
  import opened Options
  import opened PatchSections

  datatype File = File(body: Body, atime: int, mtime: int)

  function Bodies(files: map<string, File>): Tree { map p | p in files :: files[p].body }

  // ---- git -------------------------------------------------------------------

  /** The files a patch names, and what reversing and applying it makes of a tree. */
  datatype Git = Git(names: seq<Line> -> set<string>,
                     reverse: (seq<Line>, Tree) -> Option<Tree>,
                     apply: (seq<Line>, Tree) -> Option<Tree>)

  /** What the script relies on: a patch changes only files it names, and a patch of sections
      changes each file by its own section. */
  ghost predicate Relied(git: Git, apply: Effect, reverse: Effect) {
    && (forall d, t, u, p :: git.reverse(d, t) == Some(u) && p !in git.names(d) ==> At(u, p) == At(t, p))
    && (forall d, t, u, p :: git.apply(d, t) == Some(u) && p !in git.names(d) ==> At(u, p) == At(t, p))
    && (forall cs :: IsDict(cs) ==> git.names(Join(cs)) == AsMap(cs).Keys)
    && (forall cs, t, u :: IsDict(cs) ==> (git.reverse(Join(cs), t) == Some(u) <==> Yields(reverse, AsMap(cs), t, u)))
    && (forall cs, t, u :: IsDict(cs) ==> (git.apply(Join(cs), t) == Some(u) <==> Yields(apply, AsMap(cs), t, u)))
  }

  /** git is not started on an empty patch. */
  function Patched(step: (seq<Line>, Tree) -> Option<Tree>, d: seq<Line>, t: Tree): Option<Tree> {
    if d == [] then Some(t) else step(d, t)
  }

  /** Reversing one patch and then applying the other. */
  function Replaced(git: Git, previous: seq<Line>, updated: seq<Line>, t: Tree): Option<Tree> {
    var w := Patched(git.reverse, previous, t);
    if w.None? then None else Patched(git.apply, updated, w.value)
  }

  // ---- Sections that stay applied ----------------------------------------------

  function Pick(cs: seq<Chunk>, files: set<string>, inside: bool): seq<Chunk> {
    if cs == [] then []
    else
      var c := cs[|cs| - 1];
      Pick(cs[..|cs| - 1], files, inside) + (if (PathOf(c) in files) == inside then [c] else [])
  }

  lemma {:induction false} PickElements(cs: seq<Chunk>, files: set<string>, inside: bool)
    ensures forall c :: c in Pick(cs, files, inside) <==> c in cs && ((PathOf(c) in files) == inside)
  {
    if cs != [] {
      var rest := cs[..|cs| - 1];
      PickElements(rest, files, inside);
      assert cs == rest + [cs[|cs| - 1]];
    }
  }

  lemma {:induction false} PickIsDict(cs: seq<Chunk>, files: set<string>, inside: bool)
    requires IsDict(cs)
    ensures IsDict(Pick(cs, files, inside))
  {
    if cs != [] {
      var rest := cs[..|cs| - 1];
      PickIsDict(rest, files, inside);
      PickElements(rest, files, inside);
      var picked := Pick(rest, files, inside);
      forall i | 0 <= i < |picked| ensures PathOf(picked[i]) != PathOf(cs[|cs| - 1]) {
        assert picked[i] in rest;
      }
    }
  }

  lemma SectionAt(cs: seq<Chunk>, p: string)
    requires IsDict(cs)
    ensures forall c :: Section(AsMap(cs), p) == Some(c) <==> c in cs && PathOf(c) == p
  {
    AsMapHolds(cs);
    hide AsMap;
    if p in AsMap(cs) {
      var i :| 0 <= i < |cs| && PathOf(cs[i]) == p;
    }
  }

  /** The files whose section is the same in both. */
  function Kept(a: seq<Chunk>, b: seq<Chunk>): set<string> { set c | c in a && c in b :: PathOf(c) }

  lemma KeptAt(a: seq<Chunk>, b: seq<Chunk>, p: string)
    requires IsDict(a) && IsDict(b)
    ensures p in Kept(a, b) <==> Section(AsMap(a), p).Some? && Section(AsMap(a), p) == Section(AsMap(b), p)
  {
    SectionAt(a, p);
    SectionAt(b, p);
    hide AsMap, Section, IsDict;
    if p in Kept(a, b) {
      var c :| c in a && c in b && PathOf(c) == p;
      assert Section(AsMap(a), p) == Some(c);
    }
  }

  lemma PickedAt(a: seq<Chunk>, files: set<string>, inside: bool, p: string)
    requires IsDict(a)
    ensures IsDict(Pick(a, files, inside))
    ensures Section(AsMap(Pick(a, files, inside)), p) == if (p in files) == inside then Section(AsMap(a), p) else None
  {
    PickIsDict(a, files, inside);
    PickElements(a, files, inside);
    var b := Pick(a, files, inside);
    SectionAt(a, p);
    SectionAt(b, p);
    hide AsMap, Section, IsDict, Pick;
    if x :| Section(AsMap(b), p) == Some(x) {
      assert Section(AsMap(a), p) == Some(x);
    } else if y :| Section(AsMap(a), p) == Some(y) {
      assert y !in b;
    }
  }

  lemma SameSections(m: map<string, Chunk>, n: map<string, Chunk>)
    requires forall p :: Section(m, p) == Section(n, p)
    ensures m == n
  {
    forall p ensures p in m <==> p in n {
      assert Section(m, p) == Section(n, p);
    }
    forall p | p in m ensures m[p] == n[p] {
      assert Section(m, p) == Section(n, p);
    }
  }

  lemma PickedSections(a: seq<Chunk>, b: seq<Chunk>, files: set<string>)
    requires IsDict(a) && IsDict(b) && files == Kept(a, b)
    ensures IsDict(Pick(a, files, true)) && AsMap(Pick(a, files, true)) == Unchanged(AsMap(a), AsMap(b))
    ensures IsDict(Pick(a, files, false)) && AsMap(Pick(a, files, false)) == Changed(AsMap(a), AsMap(b))
  {
    hide AsMap, Section, IsDict, Pick, Kept;
    PickedAt(a, files, true, []);
    PickedAt(a, files, false, []);
    forall p ensures
      && Section(AsMap(Pick(a, files, true)), p) == Section(Unchanged(AsMap(a), AsMap(b)), p)
      && Section(AsMap(Pick(a, files, false)), p) == Section(Changed(AsMap(a), AsMap(b)), p)
    {
      KeptAt(a, b, p);
      PickedAt(a, files, true, p);
      PickedAt(a, files, false, p);
    }
    SameSections(AsMap(Pick(a, files, true)), Unchanged(AsMap(a), AsMap(b)));
    SameSections(AsMap(Pick(a, files, false)), Changed(AsMap(a), AsMap(b)));
  }

  // ---- The same tree either way --------------------------------------------------

  lemma SameTree(t: Tree, u: Tree)
    requires forall p :: At(t, p) == At(u, p)
    ensures t == u
  {
    forall p ensures p in t <==> p in u {
      assert At(t, p) == At(u, p);
    }
    forall p | p in t ensures t[p] == u[p] {
      assert At(t, p) == At(u, p);
    }
  }

  lemma EmptyYields(effect: Effect, t: Tree, u: Tree)
    ensures Yields(effect, map[], t, u) <==> u == t
  {
    if Yields(effect, map[], t, u) {
      forall p ensures At(t, p) == At(u, p) {
        assert Turns(effect, Section(map[], p), At(t, p), At(u, p));
      }
      SameTree(t, u);
    }
  }

  lemma PatchedYields(git: Git, apply: Effect, reverse: Effect, cs: seq<Chunk>, t: Tree, u: Tree)
    requires Relied(git, apply, reverse) && IsDict(cs)
    ensures Patched(git.reverse, Join(cs), t) == Some(u) <==> Yields(reverse, AsMap(cs), t, u)
    ensures Patched(git.apply, Join(cs), t) == Some(u) <==> Yields(apply, AsMap(cs), t, u)
  {
    EmptyYields(apply, t, u);
    EmptyYields(reverse, t, u);
    hide Yields, Undoes;
    if cs != [] {
      assert cs[0] != [];
    }
  }

  lemma ReplacedYields(git: Git, apply: Effect, reverse: Effect, a: seq<Chunk>, b: seq<Chunk>, t: Tree, v: Tree)
    requires Relied(git, apply, reverse) && IsDict(a) && IsDict(b)
    ensures Replaced(git, Join(a), Join(b), t) == Some(v)
        <==> WholeYields(apply, reverse, AsMap(a), AsMap(b), t, v)
  {
    hide Relied, IsDict, Yields, AsMap;
    if w :| Yields(reverse, AsMap(a), t, w) && Yields(apply, AsMap(b), w, v) {
      PatchedYields(git, apply, reverse, a, t, w);
      PatchedYields(git, apply, reverse, b, w, v);
    }
    var w := Patched(git.reverse, Join(a), t);
    if w.Some? {
      PatchedYields(git, apply, reverse, a, t, w.value);
      PatchedYields(git, apply, reverse, b, w.value, v);
    }
  }

  /** The changed sections of both patches, and the unchanged ones. */
  ghost function Rest(a: seq<Chunk>, b: seq<Chunk>): (seq<Line>, seq<Line>) {
    (Join(Pick(a, Kept(a, b), false)), Join(Pick(b, Kept(a, b), false)))
  }

  ghost function Skipped(a: seq<Chunk>, b: seq<Chunk>): seq<Line> { Join(Pick(a, Kept(a, b), true)) }

  /** The skipped sections can be reversed and applied again. */
  ghost predicate Reapplies(git: Git, skipped: seq<Line>, t: Tree) {
    var u := Patched(git.reverse, skipped, t);
    u.Some? && Patched(git.apply, skipped, u.value) == Some(t)
  }

  /** Replacing everything gives a tree exactly when replacing only the changed sections
      gives it and the skipped ones can be reversed and applied again. */
  lemma SameEitherWay(git: Git, apply: Effect, reverse: Effect, a: seq<Chunk>, b: seq<Chunk>, t: Tree, v: Tree)
    requires Relied(git, apply, reverse) && Undoes(apply, reverse) && IsDict(a) && IsDict(b)
    ensures Replaced(git, Join(a), Join(b), t) == Some(v)
        <==> Reapplies(git, Skipped(a, b), t) && Replaced(git, Rest(a, b).0, Rest(a, b).1, t) == Some(v)
  {
    var files := Kept(a, b);
    var us, os, ns := Pick(a, files, true), Pick(a, files, false), Pick(b, files, false);
    PickedSections(a, b, files);
    assert Kept(b, a) == Kept(a, b);
    PickedSections(b, a, files);
    SkippingIsExact(apply, reverse, AsMap(a), AsMap(b), t, v);
    hide Undoes, IsDict, AsMap, Pick, Kept, Replaced, Changed, Unchanged, Restores;
    ReplacedYields(git, apply, reverse, a, b, t, v);
    ReplacedYields(git, apply, reverse, os, ns, t, v);
    ReappliesYields(git, apply, reverse, us, t);
  }

  lemma ReappliesYields(git: Git, apply: Effect, reverse: Effect, us: seq<Chunk>, t: Tree)
    requires Relied(git, apply, reverse) && IsDict(us)
    ensures Reapplies(git, Join(us), t) <==> Restores(apply, reverse, AsMap(us), t)
  {
    hide Relied, IsDict, Yields, AsMap;
    if u :| Yields(reverse, AsMap(us), t, u) && Yields(apply, AsMap(us), u, t) {
      PatchedYields(git, apply, reverse, us, t, u);
      PatchedYields(git, apply, reverse, us, u, t);
    }
    var u := Patched(git.reverse, Join(us), t);
    if u.Some? {
      PatchedYields(git, apply, reverse, us, t, u.value);
      PatchedYields(git, apply, reverse, us, u.value, t);
    }
  }

  /** Both patches are sections for files of their own. */
  ghost predicate BothSectioned(previous: seq<Line>, updated: seq<Line>) {
    IsDict(Chunks(previous)) && IsDict(Chunks(updated))
  }

  /** What is handed to git in place of the two patches. */
  ghost function PassedOn(previous: seq<Line>, updated: seq<Line>): (seq<Line>, seq<Line>) {
    if BothSectioned(previous, updated) then Rest(Chunks(previous), Chunks(updated)) else (previous, updated)
  }

  /** The unchanged sections, if any, can be reversed: what git is asked first. */
  ghost predicate Applied(git: Git, previous: seq<Line>, updated: seq<Line>, t: Tree) {
    BothSectioned(previous, updated) ==> Patched(git.reverse, Skipped(Chunks(previous), Chunks(updated)), t).Some?
  }

  /** Wherever replacing the whole patch succeeds, what is passed on succeeds with the same
      tree; and it succeeds besides exactly where a skipped section reverses but does not
      apply again. */
  lemma PassedOnIsTheWhole(git: Git, apply: Effect, reverse: Effect, previous: seq<Line>, updated: seq<Line>,
                           t: Tree, v: Tree)
    requires Relied(git, apply, reverse) && Undoes(apply, reverse)
    ensures var (o, n) := PassedOn(previous, updated);
            Replaced(git, previous, updated, t) == Some(v)
            <==> && Applied(git, previous, updated, t) && Replaced(git, o, n, t) == Some(v)
                 && (BothSectioned(previous, updated) ==>
                       Reapplies(git, Skipped(Chunks(previous), Chunks(updated)), t))
  {
    hide Relied, Undoes, IsDict, Chunks, Replaced, Rest, Skipped, Join;
    if BothSectioned(previous, updated) {
      SplittingIsLossless(previous);
      SplittingIsLossless(updated);
      SameEitherWay(git, apply, reverse, Chunks(previous), Chunks(updated), t, v);
    }
  }

  /** Leaves the sections that are the same in both patches out of both, unless a patch is a
      legacy one; fails, before anything is touched, if they are not applied. */
  method ChangedSections(git: Git, ghost apply: Effect, ghost reverse: Effect, previous: seq<Line>,
                         updated: seq<Line>, t: Tree)
    returns (r: Option<(seq<Line>, seq<Line>)>)
    requires Relied(git, apply, reverse)
    ensures r == if Applied(git, previous, updated, t) then Some(PassedOn(previous, updated)) else None
    ensures r.Some? ==> git.names(r.value.0) + git.names(r.value.1) <= git.names(previous) + git.names(updated)
  {
    hide Relied, IsDict, AsMap, Pick, Chunks, Join;
    var a := Sections(previous);
    var b := Sections(updated);
    if a.None? || b.None? {
      return Some((previous, updated));
    }
    SplittingIsLossless(previous);
    SplittingIsLossless(updated);
    RestNames(git, apply, reverse, a.value, b.value);
    var kept := Kept(a.value, b.value);
    if exists p :: p in kept {
      SomethingPicked(a.value, b.value);
      if git.reverse(Join(Pick(a.value, kept, true)), t).None? {
        return None;
      }
    } else {
      NothingPicked(a.value, kept);
    }
    return Some((Join(Pick(a.value, kept, false)), Join(Pick(b.value, kept, false))));
  }

  lemma {:induction false} NothingPicked(a: seq<Chunk>, files: set<string>)
    requires forall p :: p !in files
    ensures Pick(a, files, true) == [] && Join(Pick(a, files, true)) == []
  {
    if a != [] {
      NothingPicked(a[..|a| - 1], files);
    }
  }

  lemma SomethingPicked(a: seq<Chunk>, b: seq<Chunk>)
    requires IsDict(a) && exists p :: p in Kept(a, b)
    ensures Join(Pick(a, Kept(a, b), true)) != []
  {
    var files := Kept(a, b);
    var p :| p in files;
    var c :| c in a && c in b && PathOf(c) == p;
    PickElements(a, files, true);
    PickIsDict(a, files, true);
    assert IsSection(Pick(a, files, true)[0]);
  }

  lemma RestNames(git: Git, apply: Effect, reverse: Effect, a: seq<Chunk>, b: seq<Chunk>)
    requires Relied(git, apply, reverse) && IsDict(a) && IsDict(b)
    ensures git.names(Rest(a, b).0) <= git.names(Join(a)) && git.names(Rest(a, b).1) <= git.names(Join(b))
  {
    var files := Kept(a, b);
    assert forall cs :: IsDict(cs) ==> git.names(Join(cs)) == AsMap(cs).Keys;
    PickIsDict(a, files, false);
    PickIsDict(b, files, false);
    hide Relied, IsDict, AsMap, Pick, Kept;
    forall p
      ensures p in AsMap(Pick(a, files, false)) ==> p in AsMap(a)
      ensures p in AsMap(Pick(b, files, false)) ==> p in AsMap(b)
    {
      PickedAt(a, files, false, p);
      PickedAt(b, files, false, p);
    }
  }

  // ---- The replacement -------------------------------------------------------------

  function FileAt(files: map<string, File>, p: string): Option<File> { if p in files then Some(files[p]) else None }

  /** Nothing differs off these paths. */
  ghost predicate Agree(f: map<string, File>, g: map<string, File>, paths: set<string>) {
    forall p :: p !in paths ==> FileAt(f, p) == FileAt(g, p)
  }

  lemma SameFiles(f: map<string, File>, g: map<string, File>)
    requires forall p :: FileAt(f, p) == FileAt(g, p)
    ensures f == g
  {
    forall p ensures p in f <==> p in g {
      assert FileAt(f, p) == FileAt(g, p);
    }
    forall p | p in f ensures f[p] == g[p] {
      assert FileAt(f, p) == FileAt(g, p);
    }
  }

  /** A file that is what it was, in bytes and mode, has its old times; another has new ones. */
  ghost predicate TimesKept(f: map<string, File>, g: map<string, File>, now: int) {
    forall p :: p in g ==>
      if p in f && f[p].body == g[p].body then g[p] == f[p] else g[p].atime == g[p].mtime == now
  }

  class WorkTree {
    var files: map<string, File>

    constructor (f: map<string, File>)
      ensures files == f
    {
      files := f;
    }

    /** One run of git: it rewrites the files the patch names, or it fails or is
        interrupted and leaves those files in any state. */
    method RunGit(step: (seq<Line>, Tree) -> Option<Tree>, names: set<string>, patch: seq<Line>, now: int,
                  interrupted: bool, wreck: map<string, File>) returns (ok: bool)
      requires forall u, p :: step(patch, Bodies(files)) == Some(u) && p !in names ==> At(u, p) == At(Bodies(files), p)
      modifies this
      ensures ok <==> !interrupted && step(patch, old(Bodies(files))).Some?
      ensures !ok ==> files == wreck
      ensures ok ==> Some(Bodies(files)) == step(patch, old(Bodies(files))) && Agree(files, old(files), names)
      ensures ok ==> forall p :: p in files && p in names ==> files[p].atime == files[p].mtime == now
    {
      var u := step(patch, Bodies(files));
      if interrupted || u.None? {
        files := wreck;
        return false;
      }
      ghost var t := Bodies(files);
      assert forall p :: p in u.value && p !in names ==> At(u.value, p) == At(t, p);
      files := map p | p in u.value :: if p in names then File(u.value[p], now, now) else files[p];
      forall p ensures At(Bodies(files), p) == At(u.value, p) {
        assert p !in names ==> At(u.value, p) == At(t, p);
      }
      SameTree(Bodies(files), u.value);
      return true;
    }

    /** `regular` says that nothing is renamed or copied and every path named is a regular
        file or absent. `stop` is the git run that is interrupted (1 or 2), and `wreck` what
        an unsuccessful run leaves, which can differ only in the files named. */
    method Refresh(git: Git, ghost apply: Effect, ghost reverse: Effect, previous: seq<Line>, updated: seq<Line>,
                   regular: bool, now: int, stop: nat, wreck: map<string, File>) returns (ok: bool)
      requires Relied(git, apply, reverse)
      requires Agree(wreck, files, git.names(previous) + git.names(updated))
      modifies this
      ensures !ok ==> files == old(files)
      ensures var (o, n) := PassedOn(previous, updated);
              && (ok ==> Replaced(git, o, n, old(Bodies(files))) == Some(Bodies(files)))
              && (stop == 0 ==>
                    (ok <==> && regular && Applied(git, previous, updated, old(Bodies(files)))
                             && Replaced(git, o, n, old(Bodies(files))).Some?))
      ensures ok ==> TimesKept(old(files), files, now)
    {
      if !regular {
        return false;
      }
      var paths := git.names(previous) + git.names(updated);
      var before := map p | p in paths :: FileAt(files, p);
      ghost var start := files;
      var changes := ChangedSections(git, apply, reverse, previous, updated, Bodies(files));
      if changes.None? {
        return false;
      }
      ok := RunBoth(git, apply, reverse, changes.value.0, changes.value.1, paths, now, stop, wreck);
      if !ok {
        PutBack(before);
        forall p ensures FileAt(files, p) == FileAt(start, p) {
        }
        SameFiles(files, start);
        return false;
      }
      ghost var after := files;
      KeepTimes(before);
      TimesSeenTo(start, after, files, before, paths, now);
    }

    /** The two runs of git, the second only if the first succeeds. */
    method RunBoth(git: Git, ghost apply: Effect, ghost reverse: Effect, oldChanges: seq<Line>, newChanges: seq<Line>,
                   ghost paths: set<string>, now: int, stop: nat, wreck: map<string, File>) returns (ok: bool)
      requires Relied(git, apply, reverse)
      requires git.names(oldChanges) + git.names(newChanges) <= paths && Agree(wreck, files, paths)
      modifies this
      ensures Agree(files, old(files), paths)
      ensures ok ==> Replaced(git, oldChanges, newChanges, old(Bodies(files))) == Some(Bodies(files))
      ensures ok ==> Stamped(old(files), files, now)
      ensures stop == 0 ==> (ok <==> Replaced(git, oldChanges, newChanges, old(Bodies(files))).Some?)
    {
      ok := true;
      if oldChanges != [] {
        StepIsLocal(git, apply, reverse, oldChanges, Bodies(files));
        hide Relied, Bodies;
        ok := RunGit(git.reverse, git.names(oldChanges), oldChanges, now, stop == 1, wreck);
      }
      if ok && newChanges != [] {
        StepIsLocal(git, apply, reverse, newChanges, Bodies(files));
        hide Relied, Bodies;
        ok := RunGit(git.apply, git.names(newChanges), newChanges, now, stop == 2, wreck);
      }
    }

    /** Writes every saved file back, and removes what was not there. */
    method PutBack(saved: map<string, Option<File>>)
      modifies this
      ensures forall p :: FileAt(files, p) == if p in saved then saved[p] else FileAt(old(files), p)
    {
      var left := saved.Keys;
      while exists p :: p in left
        invariant left <= saved.Keys
        invariant forall p :: FileAt(files, p) == if p in saved && p !in left then saved[p] else FileAt(old(files), p)
        decreases |left|
      {
        var p :| p in left;
        files := if saved[p].None? then files - {p} else files[p := saved[p].value];
        left := left - {p};
      }
    }

    /** Gives a file that is what was saved its saved times. */
    method KeepTimes(saved: map<string, Option<File>>)
      modifies this
      ensures forall p :: FileAt(files, p) == Timed(saved, old(files), p)
    {
      var left := saved.Keys;
      while exists p :: p in left
        invariant left <= saved.Keys
        invariant forall p ::
                    FileAt(files, p) == if p in left then FileAt(old(files), p) else Timed(saved, old(files), p)
        decreases |left|
      {
        var p :| p in left;
        assert FileAt(files, p) == FileAt(old(files), p);
        if saved[p].Some? && p in files && files[p].body == saved[p].value.body {
          files := files[p := files[p].(atime := saved[p].value.atime, mtime := saved[p].value.mtime)];
        }
        left := left - {p};
      }
    }
  }

  /** Every file is untouched or newly written. */
  ghost predicate Stamped(f: map<string, File>, g: map<string, File>, now: int) {
    forall p :: p in g ==> FileAt(f, p) == FileAt(g, p) || g[p].atime == g[p].mtime == now
  }

  /** From the saved files: the same bodies, and times as they should be. */
  lemma TimesSeenTo(start: map<string, File>, after: map<string, File>, final: map<string, File>,
                    saved: map<string, Option<File>>, paths: set<string>, now: int)
    requires Stamped(start, after, now) && Agree(after, start, paths)
    requires saved.Keys == paths && forall p :: p in saved ==> saved[p] == FileAt(start, p)
    requires forall p :: FileAt(final, p) == Timed(saved, after, p)
    ensures Bodies(final) == Bodies(after) && TimesKept(start, final, now)
  {
    forall p ensures At(Bodies(final), p) == At(Bodies(after), p) {
      assert FileAt(final, p) == Timed(saved, after, p);
    }
    SameTree(Bodies(final), Bodies(after));
    forall p | p in final ensures
      if p in start && start[p].body == final[p].body then final[p] == start[p]
      else final[p].atime == final[p].mtime == now
    {
      assert FileAt(final, p) == Timed(saved, after, p);
      assert p !in paths ==> FileAt(after, p) == FileAt(start, p);
    }
  }

  lemma StepIsLocal(git: Git, apply: Effect, reverse: Effect, d: seq<Line>, t: Tree)
    requires Relied(git, apply, reverse)
    ensures forall u, p :: git.reverse(d, t) == Some(u) && p !in git.names(d) ==> At(u, p) == At(t, p)
    ensures forall u, p :: git.apply(d, t) == Some(u) && p !in git.names(d) ==> At(u, p) == At(t, p)
  {
  }

  /** A file after its times are seen to. */
  function Timed(saved: map<string, Option<File>>, files: map<string, File>, p: string): Option<File> {
    if p in saved && saved[p].Some? && p in files && files[p].body == saved[p].value.body then saved[p]
    else FileAt(files, p)
  }
}
