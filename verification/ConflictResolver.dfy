/** Re-applying an adapter's edits on a newer upstream block
    (scripts/resolve-ohos-conflicts.py). The difference between base and theirs, and what a
    line matches, are inputs. */
module ConflictResolver {
  import opened Opcodes
  import opened Options

  type Line = string

  /** What the two regular expressions say of a line. */
  datatype Marks = Marks(ohos: Line -> bool, structural: Line -> bool)

  // ---- Classification ----------------------------------------------------------

  datatype Why = OnlyDeletes | NoMarker | OtherLogic(line: Line) | RemovesMarked
    | NoDelta | AnchorNotUnique(line: Line) | RewroteRegion | NotFound(line: Line) | Unsupported

  datatype Verdict = Resolved(lines: seq<Line>) | Refused(why: Why)

  predicate Marked(m: Marks, l: Line) { m.ohos(l) || m.structural(l) }

  /** Nothing, exactly when some added line is marked, every added line with logic of its own
      is, and no removed line is. */
  function Classify(m: Marks, added: seq<Line>, removed: seq<Line>): (why: Option<Why>)
    ensures why.None? <==>
      && (exists l :: l in added && m.ohos(l))
      && (forall l :: l in added ==> Marked(m, l))
      && (forall l :: l in removed ==> !m.ohos(l))
    ensures why == Some(OnlyDeletes) <==> added == []
    ensures why == Some(NoMarker) <==> added != [] && forall l :: l in added ==> !m.ohos(l)
    ensures why.Some? && why.value.OtherLogic? ==>
      exists k :: 0 <= k < |added| && added[k] == why.value.line && !Marked(m, added[k])
                  && forall i :: 0 <= i < k ==> Marked(m, added[i])
    ensures why == Some(RemovesMarked) ==> exists l :: l in removed && m.ohos(l)
    ensures why.Some? ==>
      why.value.OnlyDeletes? || why.value.NoMarker? || why.value.OtherLogic? || why.value.RemovesMarked?
  {
    if added == [] then Some(OnlyDeletes)
    else if !exists l :: l in added && m.ohos(l) then Some(NoMarker)
    else
      var o := FirstOther(m, added);
      if o.Some? then Some(OtherLogic(o.value))
      else if exists l :: l in removed && m.ohos(l) then Some(RemovesMarked)
      else None
  }

  function FirstOther(m: Marks, ls: seq<Line>): (o: Option<Line>)
    ensures o.None? <==> forall l :: l in ls ==> Marked(m, l)
    ensures o.Some? ==> exists k :: 0 <= k < |ls| && ls[k] == o.value && !Marked(m, ls[k])
                                    && forall i :: 0 <= i < k ==> Marked(m, ls[i])
  {
    if ls == [] then None
    else if !Marked(m, ls[0]) then Some(ls[0])
    else FirstOther(m, ls[1..])
  }

  // ---- One edit ----------------------------------------------------------------

  function First(r: seq<Line>, l: Line): (k: nat)
    ensures k <= |r| && l !in r[..k] && (k < |r| ==> r[k] == l)
  {
    if r == [] || r[0] == l then 0
    else
      var k := First(r[1..], l);
      assert r[..k + 1] == [r[0]] + r[1..][..k];
      k + 1
  }

  function Added(theirs: seq<Line>, op: Op): seq<Line> {
    if op.j1 <= op.j2 <= |theirs| then theirs[op.j1..op.j2] else []
  }

  function Dropped(base: seq<Line>, op: Op): seq<Line> {
    if op.i1 <= op.i2 <= |base| then base[op.i1..op.i2] else []
  }

  /** Puts these lines in place of the n lines at k, or of as many as there are. */
  function Splice(r: seq<Line>, k: nat, n: nat, new_: seq<Line>): seq<Line>
    requires k <= |r|
  {
    r[..k] + new_ + (if k + n <= |r| then r[k + n..] else [])
  }

  /** An insertion goes after the one line equal to the base line before it; a replacement
      takes the place of the first run that starts like the replaced one. */
  function Edited(base: seq<Line>, theirs: seq<Line>, op: Op, single: bool, r: seq<Line>): Verdict
    requires op.i1 <= op.i2 <= |base| && (op.tag.Replace? ==> op.i1 < op.i2)
  {
    var new_ := Added(theirs, op);
    match op.tag
    case Insert =>
      if op.i1 == 0 then Resolved(new_ + r)
      else
        var anchor := base[op.i1 - 1];
        var k := First(r, anchor);
        if k == |r| || anchor in r[k + 1..] then Refused(AnchorNotUnique(anchor))
        else Resolved(Splice(r, k + 1, 0, new_))
    case Replace =>
      var n := op.i2 - op.i1;
      if n == |r| && single then Refused(RewroteRegion)
      else
        var k := First(r, base[op.i1]);
        if k == |r| then Refused(NotFound(base[op.i1])) else Resolved(Splice(r, k, n, new_))
    case Delete => Refused(Unsupported)
  }

  /** The only place of a line. */
  ghost predicate OnlyPlace(r: seq<Line>, l: Line, k: nat) {
    k < |r| && r[k] == l && forall i :: 0 <= i < |r| && i != k ==> r[i] != l
  }

  ghost predicate FirstPlace(r: seq<Line>, l: Line, k: nat) {
    k < |r| && r[k] == l && forall i :: 0 <= i < k ==> r[i] != l
  }

  /** What an edit gives, without saying how its place is found: an insertion at the start of
      base goes to the start, any other behind the only line equal to its anchor; a
      replacement takes the first line equal to the first one it replaces, and as many behind
      it as it replaces or as there are, unless the whole block is one replaced run. */
  ghost predicate Lands(base: seq<Line>, theirs: seq<Line>, op: Op, single: bool, r: seq<Line>, v: Verdict)
    requires OpOk(base, theirs, op)
  {
    var new_, n := theirs[op.j1..op.j2], op.i2 - op.i1;
    match op.tag
    case Delete => v == Refused(Unsupported)
    case Insert =>
      if op.i1 == 0 then v == Resolved(new_ + r)
      else
        var anchor := base[op.i1 - 1];
        if v.Resolved? then exists k: nat :: OnlyPlace(r, anchor, k) && v.lines == r[..k + 1] + new_ + r[k + 1..]
        else v.why == AnchorNotUnique(anchor) && forall k: nat :: !OnlyPlace(r, anchor, k)
    case Replace =>
      if n == |r| && single then v == Refused(RewroteRegion)
      else
        if v.Resolved? then
          exists k: nat :: FirstPlace(r, base[op.i1], k)
                      && v.lines == r[..k] + new_ + if k + n <= |r| then r[k + n..] else []
        else v.why == NotFound(base[op.i1]) && base[op.i1] !in r
  }

  lemma EditLands(base: seq<Line>, theirs: seq<Line>, op: Op, single: bool, r: seq<Line>, v: Verdict)
    requires OpOk(base, theirs, op)
    ensures Lands(base, theirs, op, single, r, v) <==> v == Edited(base, theirs, op, single, r)
  {
    match op.tag
    case Delete =>
    case Insert =>
      if op.i1 > 0 {
        InsertionLands(base, theirs, op, single, r, v);
      }
    case Replace =>
      if op.i2 - op.i1 != |r| || !single {
        ReplacementLands(base, theirs, op, single, r, v);
      }
  }

  lemma FirstIsPlace(r: seq<Line>, l: Line)
    ensures First(r, l) < |r| ==> FirstPlace(r, l, First(r, l))
    ensures First(r, l) == |r| <==> l !in r
    ensures forall k: nat :: FirstPlace(r, l, k) ==> k == First(r, l)
    ensures forall k: nat :: OnlyPlace(r, l, k) <==> k == First(r, l) < |r| && l !in r[k + 1..]
  {
    var f := First(r, l);
    assert forall i :: 0 <= i < f ==> r[..f][i] == r[i];
    if f == |r| {
      assert r[..f] == r;
    } else {
      assert forall i :: f < i < |r| ==> r[f + 1..][i - f - 1] == r[i];
    }
  }

  lemma InsertionLands(base: seq<Line>, theirs: seq<Line>, op: Op, single: bool, r: seq<Line>, v: Verdict)
    requires OpOk(base, theirs, op) && op.tag.Insert? && op.i1 > 0
    ensures Lands(base, theirs, op, single, r, v) <==> v == Edited(base, theirs, op, single, r)
  {
    var anchor := base[op.i1 - 1];
    FirstIsPlace(r, anchor);
    hide First, OnlyPlace;
    var k := First(r, anchor);
    if k < |r| && anchor !in r[k + 1..] {
      assert OnlyPlace(r, anchor, k);
    }
  }

  lemma ReplacementLands(base: seq<Line>, theirs: seq<Line>, op: Op, single: bool, r: seq<Line>, v: Verdict)
    requires OpOk(base, theirs, op) && op.tag.Replace? && (op.i2 - op.i1 != |r| || !single)
    ensures Lands(base, theirs, op, single, r, v) <==> v == Edited(base, theirs, op, single, r)
  {
    FirstIsPlace(r, base[op.i1]);
    hide First, FirstPlace, OnlyPlace;
    var k := First(r, base[op.i1]);
    if k < |r| {
      assert FirstPlace(r, base[op.i1], k);
    }
  }

  /** What the edits from number n on, applied last first, make of ours. */
  ghost function Replay(ours: seq<Line>, base: seq<Line>, theirs: seq<Line>, ops: seq<Op>, n: nat): Verdict
    requires n <= |ops| && OpsOk(base, theirs, ops)
    decreases |ops| - n
  {
    if n == |ops| then Resolved(ours)
    else
      var v := Replay(ours, base, theirs, ops, n + 1);
      if v.Refused? then v else Edited(base, theirs, ops[n], |ops| == 1, v.lines)
  }

  ghost function AllAdded(theirs: seq<Line>, ops: seq<Op>): seq<Line> {
    if ops == [] then [] else AllAdded(theirs, ops[..|ops| - 1]) + Added(theirs, ops[|ops| - 1])
  }

  ghost function AllDropped(base: seq<Line>, ops: seq<Op>): seq<Line> {
    if ops == [] then [] else AllDropped(base, ops[..|ops| - 1]) + Dropped(base, ops[|ops| - 1])
  }

  /** The whole decision about a block. */
  ghost function Resolution(m: Marks, ours: seq<Line>, base: seq<Line>, theirs: seq<Line>, ops: seq<Op>): Verdict
    requires IsDelta(base, theirs, ops)
  {
    var why := Classify(m, AllAdded(theirs, ops), AllDropped(base, ops));
    if ops == [] then Refused(NoDelta)
    else if why.Some? then Refused(why.value)
    else Replay(ours, base, theirs, ops, 0)
  }

  // ---- The loops -----------------------------------------------------------------

  /** The number of places where a line stands, and the first of them. */
  method FindHits(r: seq<Line>, l: Line) returns (hits: seq<nat>)
    ensures hits == [] <==> First(r, l) == |r|
    ensures hits != [] ==> hits[0] == First(r, l) && (|hits| == 1 <==> l !in r[First(r, l) + 1..])
  {
    hits := [];
    for k := 0 to |r|
      invariant hits == [] ==> l !in r[..k]
      invariant hits != [] ==> hits[0] < k && r[hits[0]] == l && l !in r[..hits[0]]
      invariant hits != [] ==> (|hits| == 1 <==> l !in r[hits[0] + 1..k])
    {
      if r[k] == l {
        hits := hits + [k];
      }
    }
    assert r[..|r|] == r;
    if hits != [] {
      FirstIs(r, l, hits[0]);
    }
  }

  lemma FirstIs(r: seq<Line>, l: Line, k: nat)
    requires k < |r| && r[k] == l && l !in r[..k]
    ensures First(r, l) == k
  {
    var f := First(r, l);
    forall i | 0 <= i < k ensures r[i] != l {
      assert r[..k][i] == r[i];
    }
    forall i | 0 <= i < f ensures r[i] != l {
      assert r[..f][i] == r[i];
    }
  }

  method ApplyEdit(base: seq<Line>, theirs: seq<Line>, op: Op, single: bool, r: seq<Line>) returns (v: Verdict)
    requires OpOk(base, theirs, op)
    ensures v == Edited(base, theirs, op, single, r)
    ensures Lands(base, theirs, op, single, r, v)
  {
    hide Lands, First;
    EditLands(base, theirs, op, single, r, Edited(base, theirs, op, single, r));
    var added := theirs[op.j1..op.j2];
    var removed := base[op.i1..op.i2];
    match op.tag {
      case Insert =>
        if op.i1 == 0 {
          return Resolved(added + r);
        }
        var hits := FindHits(r, base[op.i1 - 1]);
        if |hits| != 1 {
          return Refused(AnchorNotUnique(base[op.i1 - 1]));
        }
        return Resolved(Splice(r, hits[0] + 1, 0, added));
      case Replace =>
        if |removed| == |r| && single {
          return Refused(RewroteRegion);
        }
        var k := 0;
        while k < |r| && r[k] != removed[0]
          invariant k <= |r| && removed[0] !in r[..k]
        {
          k := k + 1;
        }
        if k == |r| {
          assert r[..k] == r;
          return Refused(NotFound(removed[0]));
        }
        FirstIs(r, removed[0], k);
        return Resolved(Splice(r, k, |removed|, added));
      case Delete =>
        return Refused(Unsupported);
    }
  }

  /** Flattens what the edits add and remove. */
  method Collect(base: seq<Line>, theirs: seq<Line>, ops: seq<Op>) returns (added: seq<Line>, removed: seq<Line>)
    requires OpsOk(base, theirs, ops)
    ensures added == AllAdded(theirs, ops) && removed == AllDropped(base, ops)
  {
    added, removed := [], [];
    for n := 0 to |ops|
      invariant added == AllAdded(theirs, ops[..n]) && removed == AllDropped(base, ops[..n])
    {
      assert ops[..n + 1][..n] == ops[..n] && OpOk(base, theirs, ops[n]);
      added := added + theirs[ops[n].j1..ops[n].j2];
      removed := removed + base[ops[n].i1..ops[n].i2];
    }
    assert ops[..|ops|] == ops;
  }

  lemma ReplayUnfolds(ours: seq<Line>, base: seq<Line>, theirs: seq<Line>, ops: seq<Op>, n: nat)
    requires n <= |ops| && OpsOk(base, theirs, ops)
    ensures n == |ops| ==> Replay(ours, base, theirs, ops, n) == Resolved(ours)
    ensures n < |ops| ==>
      var v := Replay(ours, base, theirs, ops, n + 1);
      && OpOk(base, theirs, ops[n])
      && Replay(ours, base, theirs, ops, n)
         == if v.Refused? then v else Edited(base, theirs, ops[n], |ops| == 1, v.lines)
  {
    hide Edited;
  }

  /** Applies the edits last first, so that those to come still find their places. */
  method ApplyEdits(ours: seq<Line>, base: seq<Line>, theirs: seq<Line>, ops: seq<Op>) returns (v: Verdict)
    requires OpsOk(base, theirs, ops)
    ensures v == Replay(ours, base, theirs, ops, 0)
  {
    v := Resolved(ours);
    var n: nat := |ops|;
    ReplayUnfolds(ours, base, theirs, ops, n);
    hide Replay, Edited, OpOk;
    while n > 0
      invariant n <= |ops| && v.Resolved? && v == Replay(ours, base, theirs, ops, n)
    {
      n := n - 1;
      ReplayUnfolds(ours, base, theirs, ops, n);
      v := ApplyEdit(base, theirs, ops[n], |ops| == 1, v.lines);
      if v.Refused? {
        RefusedStays(ours, base, theirs, ops, n);
        return v;
      }
    }
  }

  method ResolveBlock(m: Marks, ours: seq<Line>, base: seq<Line>, theirs: seq<Line>, ops: seq<Op>) returns (v: Verdict)
    requires IsDelta(base, theirs, ops)
    ensures v == Resolution(m, ours, base, theirs, ops)
  {
    if ops == [] {
      return Refused(NoDelta);
    }
    var added, removed := Collect(base, theirs, ops);
    var why := Classify(m, added, removed);
    if why.Some? {
      return Refused(why.value);
    }
    v := ApplyEdits(ours, base, theirs, ops);
  }

  /** One after the other, the last first, the edits lead from ours to the result. */
  ghost predicate Chained(ours: seq<Line>, base: seq<Line>, theirs: seq<Line>, ops: seq<Op>, n: nat,
                          rs: seq<seq<Line>>)
    requires OpsOk(base, theirs, ops) && n <= |ops|
  {
    && |rs| == |ops| - n + 1 && rs[|ops| - n] == ours
    && forall k :: n <= k < |ops| ==>
         OpOk(base, theirs, ops[k]) && Lands(base, theirs, ops[k], |ops| == 1, rs[k - n + 1], Resolved(rs[k - n]))
  }

  lemma {:induction false} ReplayIsChain(ours: seq<Line>, base: seq<Line>, theirs: seq<Line>, ops: seq<Op>, n: nat)
    returns (rs: seq<seq<Line>>)
    requires OpsOk(base, theirs, ops) && n <= |ops| && Replay(ours, base, theirs, ops, n).Resolved?
    ensures Chained(ours, base, theirs, ops, n, rs) && rs[0] == Replay(ours, base, theirs, ops, n).lines
    decreases |ops| - n
  {
    hide Lands, Edited, Replay;
    ReplayUnfolds(ours, base, theirs, ops, n);
    if n == |ops| {
      rs := [ours];
    } else {
      var rest := ReplayIsChain(ours, base, theirs, ops, n + 1);
      var r := Replay(ours, base, theirs, ops, n).lines;
      EditLands(base, theirs, ops[n], |ops| == 1, rest[0], Resolved(r));
      rs := [r] + rest;
      forall k | n <= k < |ops| ensures
        OpOk(base, theirs, ops[k]) && Lands(base, theirs, ops[k], |ops| == 1, rs[k - n + 1], Resolved(rs[k - n]))
      {
        if k > n {
          assert rs[k - n + 1] == rest[k - n] && rs[k - n] == rest[k - n - 1];
        }
      }
    }
  }

  lemma {:induction false} ChainIsReplay(ours: seq<Line>, base: seq<Line>, theirs: seq<Line>, ops: seq<Op>, n: nat,
                                         rs: seq<seq<Line>>)
    requires OpsOk(base, theirs, ops) && n <= |ops| && Chained(ours, base, theirs, ops, n, rs)
    ensures Replay(ours, base, theirs, ops, n) == Resolved(rs[0])
    decreases |ops| - n
  {
    hide Lands, Edited, Replay;
    ReplayUnfolds(ours, base, theirs, ops, n);
    if n < |ops| {
      var rest := rs[1..];
      forall k | n + 1 <= k < |ops| ensures
        OpOk(base, theirs, ops[k])
        && Lands(base, theirs, ops[k], |ops| == 1, rest[k - n], Resolved(rest[k - n - 1]))
      {
        assert rest[k - n] == rs[k - n + 1] && rest[k - n - 1] == rs[k - n];
      }
      ChainIsReplay(ours, base, theirs, ops, n + 1, rest);
      EditLands(base, theirs, ops[n], |ops| == 1, rs[1], Resolved(rs[0]));
    }
  }

  /** Exactly when a block is resolved, and to what: some added line is marked, every added
      line with logic of its own is, no removed one is, and the edits, the last first, each
      find their place. */
  lemma ResolvedByEdits(m: Marks, ours: seq<Line>, base: seq<Line>, theirs: seq<Line>, ops: seq<Op>, r: seq<Line>)
    requires IsDelta(base, theirs, ops)
    ensures Resolution(m, ours, base, theirs, ops) == Resolved(r)
        <==> && ops != []
             && (exists l :: l in AllAdded(theirs, ops) && m.ohos(l))
             && (forall l :: l in AllAdded(theirs, ops) ==> Marked(m, l))
             && (forall l :: l in AllDropped(base, ops) ==> !m.ohos(l))
             && exists rs :: Chained(ours, base, theirs, ops, 0, rs) && rs[0] == r
  {
    hide Replay, AllAdded, AllDropped, Lands;
    if Replay(ours, base, theirs, ops, 0) == Resolved(r) {
      var rs := ReplayIsChain(ours, base, theirs, ops, 0);
    }
    forall rs | |rs| > 0 && Chained(ours, base, theirs, ops, 0, rs)
      ensures Replay(ours, base, theirs, ops, 0) == Resolved(rs[0])
    {
      ChainIsReplay(ours, base, theirs, ops, 0, rs);
    }
  }

  lemma {:induction false} RefusedStays(ours: seq<Line>, base: seq<Line>, theirs: seq<Line>, ops: seq<Op>, n: nat)
    requires n <= |ops| && OpsOk(base, theirs, ops)
    requires Replay(ours, base, theirs, ops, n).Refused?
    ensures Replay(ours, base, theirs, ops, 0) == Replay(ours, base, theirs, ops, n)
    decreases n
  {
    hide OpOk, Edited;
    if n > 0 {
      RefusedStays(ours, base, theirs, ops, n - 1);
    }
  }

  // ---- Nothing lost ----------------------------------------------------------------

  predicate Subsequence(a: seq<Line>, b: seq<Line>)
    decreases |b|
  {
    a == [] || (b != [] && ((a[0] == b[0] && Subsequence(a[1..], b[1..])) || Subsequence(a, b[1..])))
  }

  lemma {:induction false} InsertingKeeps(a: seq<Line>, x: seq<Line>, new_: seq<Line>, y: seq<Line>)
    requires Subsequence(a, x + y)
    ensures Subsequence(a, x + new_ + y)
    decreases |x| + |new_|
  {
    if x != [] {
      assert (x + y)[1..] == x[1..] + y && (x + new_ + y)[1..] == x[1..] + new_ + y;
      if a != [] {
        if a[0] == x[0] && Subsequence(a[1..], x[1..] + y) {
          InsertingKeeps(a[1..], x[1..], new_, y);
        } else {
          InsertingKeeps(a, x[1..], new_, y);
        }
      }
    } else if new_ != [] {
      InsertingKeeps(a, x, new_[1..], y);
      assert (x + new_ + y)[1..] == x + new_[1..] + y;
    } else {
      assert x + new_ + y == x + y;
    }
  }

  lemma {:induction false} OwnSubsequence(a: seq<Line>)
    ensures Subsequence(a, a)
  {
    if a != [] {
      OwnSubsequence(a[1..]);
    }
  }

  lemma SplicedLines(r: seq<Line>, k: nat, n: nat, new_: seq<Line>) returns (lost: seq<Line>)
    requires k <= |r|
    ensures |lost| <= n && multiset(Splice(r, k, n, new_)) + multiset(lost) == multiset(r) + multiset(new_)
    ensures n == 0 ==> lost == []
  {
    var end := if k + n <= |r| then k + n else |r|;
    lost := r[k..end];
    assert r == r[..k] + lost + r[end..];
  }

  /** One edit adds its lines, and loses at most as many as it replaces. */
  lemma EditedLines(base: seq<Line>, theirs: seq<Line>, op: Op, single: bool, r: seq<Line>) returns (lost: seq<Line>)
    requires OpOk(base, theirs, op) && Edited(base, theirs, op, single, r).Resolved?
    ensures |lost| <= |Dropped(base, op)|
    ensures var e := Edited(base, theirs, op, single, r).lines;
            multiset(e) + multiset(lost) == multiset(r) + multiset(Added(theirs, op))
  {
    hide Splice, Added;
    var new_ := Added(theirs, op);
    match op.tag
    case Insert =>
      if op.i1 == 0 {
        lost := [];
      } else {
        lost := SplicedLines(r, First(r, base[op.i1 - 1]) + 1, 0, new_);
      }
    case Replace => lost := SplicedLines(r, First(r, base[op.i1]), op.i2 - op.i1, new_);
    case Delete => lost := [];
  }

  lemma CollectedNext(base: seq<Line>, theirs: seq<Line>, ops: seq<Op>, n: nat)
    requires n < |ops|
    ensures AllAdded(theirs, ops[..n + 1]) == AllAdded(theirs, ops[..n]) + Added(theirs, ops[n])
    ensures multiset(AllAdded(theirs, ops[..n + 1]))
         == multiset(AllAdded(theirs, ops[..n])) + multiset(Added(theirs, ops[n]))
    ensures AllDropped(base, ops[..n + 1]) == AllDropped(base, ops[..n]) + Dropped(base, ops[n])
  {
    assert ops[..n + 1][..n] == ops[..n];
  }

  lemma Balance(a: multiset<Line>, b: multiset<Line>, one: multiset<Line>, rest: multiset<Line>,
      p: multiset<Line>, new_: multiset<Line>)
    requires a + one == b + new_
    ensures a + (rest + one) + p == b + rest + (p + new_)
  {
    assert a + (rest + one) + p == (a + one) + rest + p;
  }

  lemma {:induction false} ReplayLines(ours: seq<Line>, base: seq<Line>, theirs: seq<Line>, ops: seq<Op>, n: nat)
      returns (lost: seq<Line>)
    requires n <= |ops| && OpsOk(base, theirs, ops) && Replay(ours, base, theirs, ops, n).Resolved?
    ensures |lost| + |AllDropped(base, ops[..n])| <= |AllDropped(base, ops)|
    ensures multiset(Replay(ours, base, theirs, ops, n).lines) + multiset(lost) + multiset(AllAdded(theirs, ops[..n]))
         == multiset(ours) + multiset(AllAdded(theirs, ops))
    decreases |ops| - n
  {
    hide Replay, Edited, OpOk, OpsOk, AllAdded, AllDropped, Added, Dropped;
    ReplayUnfolds(ours, base, theirs, ops, n);
    if n == |ops| {
      assert ops[..n] == ops;
      lost := [];
      assert multiset(lost) == multiset{};
    } else {
      var rest := ReplayLines(ours, base, theirs, ops, n + 1);
      var one := EditedLines(base, theirs, ops[n], |ops| == 1, Replay(ours, base, theirs, ops, n + 1).lines);
      CollectedNext(base, theirs, ops, n);
      lost := rest + one;
      Balance(multiset(Replay(ours, base, theirs, ops, n).lines),
              multiset(Replay(ours, base, theirs, ops, n + 1).lines),
              multiset(one), multiset(rest), multiset(AllAdded(theirs, ops[..n])), multiset(Added(theirs, ops[n])));
    }
  }

  /** A resolution holds every line of ours and every added line, but for as many as the
      replaced runs have. */
  lemma LinesAreConserved(m: Marks, ours: seq<Line>, base: seq<Line>, theirs: seq<Line>, ops: seq<Op>)
    returns (lost: seq<Line>)
    requires IsDelta(base, theirs, ops) && Resolution(m, ours, base, theirs, ops).Resolved?
    ensures |lost| <= |AllDropped(base, ops)|
    ensures multiset(Resolution(m, ours, base, theirs, ops).lines) + multiset(lost)
         == multiset(ours) + multiset(AllAdded(theirs, ops))
  {
    lost := ReplayLines(ours, base, theirs, ops, 0);
    assert ops[..0] == [];
  }

  ghost predicate OnlyInserts(ops: seq<Op>) { forall n :: 0 <= n < |ops| ==> ops[n].tag.Insert? }

  lemma {:induction false} InsertsDropNothing(base: seq<Line>, ops: seq<Op>)
    requires OnlyInserts(ops)
    ensures (forall n :: 0 <= n < |ops| ==> ops[n].i1 == ops[n].i2) ==> AllDropped(base, ops) == []
  {
    if ops != [] {
      InsertsDropNothing(base, ops[..|ops| - 1]);
    }
  }

  lemma EditKeeps(ours: seq<Line>, base: seq<Line>, theirs: seq<Line>, op: Op, single: bool, r: seq<Line>)
    requires OpOk(base, theirs, op) && op.tag.Insert?
    requires Edited(base, theirs, op, single, r).Resolved? && Subsequence(ours, r)
    ensures Subsequence(ours, Edited(base, theirs, op, single, r).lines)
  {
    hide Subsequence, Added, Edited, First;
    var k := InsertLands(base, theirs, op, single, r);
    assert r == r[..k] + r[k..];
    InsertingKeeps(ours, r[..k], Added(theirs, op), r[k..]);
  }

  lemma InsertLands(base: seq<Line>, theirs: seq<Line>, op: Op, single: bool, r: seq<Line>) returns (k: nat)
    requires OpOk(base, theirs, op) && op.tag.Insert? && Edited(base, theirs, op, single, r).Resolved?
    ensures k <= |r| && Edited(base, theirs, op, single, r).lines == r[..k] + Added(theirs, op) + r[k..]
  {
    hide Added;
    k := if op.i1 == 0 then 0 else First(r, base[op.i1 - 1]) + 1;
    if op.i1 == 0 {
      assert r[..0] == [] && r[0..] == r;
    } else if k == |r| {
      assert r[k..] == [];
    }
  }

  lemma {:induction false} ReplayKeeps(ours: seq<Line>, base: seq<Line>, theirs: seq<Line>, ops: seq<Op>, n: nat)
    requires n <= |ops| && OpsOk(base, theirs, ops) && OnlyInserts(ops) && Replay(ours, base, theirs, ops, n).Resolved?
    ensures Subsequence(ours, Replay(ours, base, theirs, ops, n).lines)
    decreases |ops| - n
  {
    hide Replay, Edited, OpOk, OpsOk, Subsequence;
    ReplayUnfolds(ours, base, theirs, ops, n);
    if n == |ops| {
      OwnSubsequence(ours);
    } else {
      ReplayKeeps(ours, base, theirs, ops, n + 1);
      EditKeeps(ours, base, theirs, ops[n], |ops| == 1, Replay(ours, base, theirs, ops, n + 1).lines);
    }
  }

  /** With insertions alone nothing of ours is lost or moved, and what is added is the
      adapter's support: marked lines, and lines without logic of their own around them. */
  lemma InsertionsConserve(m: Marks, ours: seq<Line>, base: seq<Line>, theirs: seq<Line>, ops: seq<Op>)
    requires IsDelta(base, theirs, ops) && OnlyInserts(ops) && Resolution(m, ours, base, theirs, ops).Resolved?
    ensures var r := Resolution(m, ours, base, theirs, ops).lines;
            Subsequence(ours, r) && multiset(r) == multiset(ours) + multiset(AllAdded(theirs, ops))
    ensures forall l :: l in AllAdded(theirs, ops) && !m.structural(l) ==> m.ohos(l)
    ensures exists l :: l in AllAdded(theirs, ops) && m.ohos(l)
  {
    var lost := LinesAreConserved(m, ours, base, theirs, ops);
    forall n | 0 <= n < |ops| ensures ops[n].i1 == ops[n].i2 {
      assert OpOk(base, theirs, ops[n]);
    }
    InsertsDropNothing(base, ops);
    ReplayKeeps(ours, base, theirs, ops, 0);
    assert forall l :: l in AllAdded(theirs, ops) ==> Marked(m, l);
  }

  // ---- Unchanged upstream ------------------------------------------------------------

  /** The first line of each replaced run does not occur earlier in the block. */
  ghost predicate FirstOnce(base: seq<Line>, ops: seq<Op>) {
    forall n :: 0 <= n < |ops| && ops[n].tag.Replace? && ops[n].i1 < |base| ==> base[ops[n].i1] !in base[..ops[n].i1]
  }

  lemma OnlyAt(r: seq<Line>, l: Line, k: nat)
    requires k < |r| && r[k] == l && First(r, l) < |r| && l !in r[First(r, l) + 1..]
    ensures First(r, l) == k
  {
    var f := First(r, l);
    assert forall i :: 0 <= i < f ==> r[i] == r[..f][i];
    assert forall i :: f < i < |r| ==> r[i] == r[f + 1..][i - f - 1];
  }

  /** The first k lines of base, and then theirs from line l. */
  ghost predicate HalfDone(base: seq<Line>, theirs: seq<Line>, at: (nat, nat), r: seq<Line>) {
    at.0 <= |base| && at.1 <= |theirs| && r == base[..at.0] + theirs[at.1..]
  }

  lemma InsertedThere(base: seq<Line>, theirs: seq<Line>, i: nat, j1: nat, j2: nat, r: seq<Line>)
    requires i <= |base| && j1 <= j2 <= |theirs| && r == base[..i] + theirs[j2..]
    ensures r[..i] + theirs[j1..j2] + r[i..] == base[..i] + theirs[j1..]
    ensures i > 0 ==> r[i - 1] == base[i - 1]
  {
  }

  lemma InsertAtPlace(base: seq<Line>, theirs: seq<Line>, op: Op, single: bool, r: seq<Line>)
    requires OpOk(base, theirs, op) && op.tag.Insert? && HalfDone(base, theirs, (op.i2, op.j2), r)
    requires Edited(base, theirs, op, single, r).Resolved?
    ensures HalfDone(base, theirs, (op.i1, op.j1), Edited(base, theirs, op, single, r).lines)
  {
    hide First;
    InsertedThere(base, theirs, op.i1, op.j1, op.j2, r);
    if op.i1 > 0 {
      OnlyAt(r, base[op.i1 - 1], op.i1 - 1);
    } else {
      assert r[..0] + Added(theirs, op) + r[0..] == Added(theirs, op) + r;
    }
  }

  lemma ReplaceAtPlace(base: seq<Line>, theirs: seq<Line>, op: Op, single: bool, r: seq<Line>)
    requires OpOk(base, theirs, op) && op.tag.Replace? && HalfDone(base, theirs, (op.i2, op.j2), r)
    requires Edited(base, theirs, op, single, r).Resolved?
    requires base[op.i1] !in base[..op.i1]
    ensures HalfDone(base, theirs, (op.i1, op.j1), Edited(base, theirs, op, single, r).lines)
  {
    assert theirs[op.j1..] == Added(theirs, op) + theirs[op.j2..];
    assert r[op.i2..] == theirs[op.j2..] && r[..op.i1] == base[..op.i1];
    FirstIs(r, base[op.i1], op.i1);
  }

  /** Where ours is base up to an edit and theirs after it, the edit moves that boundary to
      its own beginning. */
  lemma EditAtPlace(base: seq<Line>, theirs: seq<Line>, op: Op, single: bool, r: seq<Line>)
    requires OpOk(base, theirs, op) && HalfDone(base, theirs, (op.i2, op.j2), r)
    requires Edited(base, theirs, op, single, r).Resolved?
    requires op.tag.Replace? ==> base[op.i1] !in base[..op.i1]
    ensures HalfDone(base, theirs, (op.i1, op.j1), Edited(base, theirs, op, single, r).lines)
  {
    hide HalfDone;
    match op.tag
    case Insert => InsertAtPlace(base, theirs, op, single, r);
    case Replace => ReplaceAtPlace(base, theirs, op, single, r);
    case Delete =>
  }

  lemma SeamMoves(base: seq<Line>, theirs: seq<Line>, ops: seq<Op>, n: nat, r: seq<Line>)
    requires n < |ops| && OpOk(base, theirs, ops[n]) && SeamOk(base, theirs, ops, n + 1)
    requires HalfDone(base, theirs, Begin(base, theirs, ops, n + 1), r)
    ensures HalfDone(base, theirs, (ops[n].i2, ops[n].j2), r)
  {
    var op := ops[n];
    var (k, l) := Begin(base, theirs, ops, n + 1);
    assert base[..k] == base[..op.i2] + base[op.i2..k] && theirs[op.j2..] == theirs[op.j2..l] + theirs[l..];
  }

  lemma {:induction false} ReplayOnBase(base: seq<Line>, theirs: seq<Line>, ops: seq<Op>, n: nat)
    requires IsDelta(base, theirs, ops) && FirstOnce(base, ops) && n <= |ops|
    requires Replay(base, base, theirs, ops, n).Resolved?
    ensures HalfDone(base, theirs, Begin(base, theirs, ops, n), Replay(base, base, theirs, ops, n).lines)
    decreases |ops| - n
  {
    hide Replay, Edited;
    ReplayUnfolds(base, base, theirs, ops, n);
    if n == |ops| {
      assert base[..|base|] + theirs[|theirs|..] == base;
    } else {
      assert SeamOk(base, theirs, ops, n + 1) && OpOk(base, theirs, ops[n]);
      ReplayOnBase(base, theirs, ops, n + 1);
      StepOnBase(base, theirs, ops, n, Replay(base, base, theirs, ops, n + 1).lines);
    }
  }

  lemma StepOnBase(base: seq<Line>, theirs: seq<Line>, ops: seq<Op>, n: nat, r: seq<Line>)
    requires n < |ops| && OpOk(base, theirs, ops[n]) && SeamOk(base, theirs, ops, n + 1) && FirstOnce(base, ops)
    requires HalfDone(base, theirs, Begin(base, theirs, ops, n + 1), r)
    requires Edited(base, theirs, ops[n], |ops| == 1, r).Resolved?
    ensures HalfDone(base, theirs, Begin(base, theirs, ops, n), Edited(base, theirs, ops[n], |ops| == 1, r).lines)
  {
    SeamMoves(base, theirs, ops, n, r);
    hide Edited, HalfDone, SeamOk;
    EditAtPlace(base, theirs, ops[n], |ops| == 1, r);
  }

  /** If upstream has not changed the block, resolving it gives the adapter's version. */
  lemma UnchangedUpstream(m: Marks, base: seq<Line>, theirs: seq<Line>, ops: seq<Op>)
    requires IsDelta(base, theirs, ops) && FirstOnce(base, ops) && Resolution(m, base, base, theirs, ops).Resolved?
    ensures Resolution(m, base, base, theirs, ops).lines == theirs
  {
    ReplayOnBase(base, theirs, ops, 0);
    assert SeamOk(base, theirs, ops, 0);
    hide Replay, SeamOk, HalfDone, Classify;
    AllTheirs(base, theirs, ops, Replay(base, base, theirs, ops, 0).lines);
  }

  lemma AllTheirs(base: seq<Line>, theirs: seq<Line>, ops: seq<Op>, r: seq<Line>)
    requires SeamOk(base, theirs, ops, 0) && HalfDone(base, theirs, Begin(base, theirs, ops, 0), r)
    ensures r == theirs
  {
    var (k, l) := Begin(base, theirs, ops, 0);
    assert base[..k] == base[0..k] == theirs[0..l] && theirs == theirs[..l] + theirs[l..];
  }

  /** For one replaced run the condition is exact. */
  lemma OneReplacement(m: Marks, base: seq<Line>, theirs: seq<Line>, op: Op)
    requires IsDelta(base, theirs, [op]) && op.tag.Replace? && Resolution(m, base, base, theirs, [op]).Resolved?
    ensures Resolution(m, base, base, theirs, [op]).lines == theirs <==> base[op.i1] !in base[..op.i1]
  {
    assert OpOk(base, theirs, [op][0]);
    if base[op.i1] !in base[..op.i1] {
      UnchangedUpstream(m, base, theirs, [op]);
    } else {
      ReplayUnfolds(base, base, theirs, [op], 0);
      ReplayUnfolds(base, base, theirs, [op], 1);
      assert SeamOk(base, theirs, [op], 0);
      var k := First(base, base[op.i1]);
      var i :| 0 <= i < op.i1 && base[..op.i1][i] == base[op.i1];
      assert k < op.i1 && base[0..op.i1] == theirs[0..op.j1];
      assert theirs[k] == theirs[0..op.j1][k] == base[0..op.i1][k] == base[op.i1];
      assert Splice(base, k, op.i2 - op.i1, Added(theirs, op))[k] == theirs[op.j1];
    }
  }

  lemma CollectedOne(base: seq<Line>, theirs: seq<Line>, op: Op)
    ensures AllAdded(theirs, [op]) == Added(theirs, op) && AllDropped(base, [op]) == Dropped(base, op)
  {
    assert [op][..0] == [];
    assert AllAdded(theirs, [op][..0]) == [] && AllDropped(base, [op][..0]) == [];
  }

  /** One replaced run of an unchanged block is refused only by its classification, or
      because it is the whole block. */
  lemma OneReplacementResolves(m: Marks, base: seq<Line>, theirs: seq<Line>, op: Op)
    requires IsDelta(base, theirs, [op]) && op.tag.Replace?
    ensures Resolution(m, base, base, theirs, [op]).Resolved?
        <==> Classify(m, Added(theirs, op), Dropped(base, op)).None? && op.i2 - op.i1 != |base|
  {
    OneEdit(base, theirs, op);
    CollectedOne(base, theirs, op);
    ReplayUnfolds(base, base, theirs, [op], 0);
    ReplayUnfolds(base, base, theirs, [op], 1);
    hide Classify, AllAdded, AllDropped, Replay, IsDelta, First;
    IsThere(base, op.i1);
  }

  lemma IsThere(r: seq<Line>, k: nat)
    requires k < |r|
    ensures First(r, r[k]) < |r|
  {
    var f := First(r, r[k]);
    assert forall i :: 0 <= i < f ==> r[i] == r[..f][i];
  }

  predicate Mentions(l: Line, word: string) {
    exists i :: 0 <= i <= |l| && word <= l[i..]
  }

  /** What the script's own pattern says of a line. */
  predicate Ohos(l: Line) { Mentions(l, "OHOS") || Mentions(l, "ohos") || Mentions(l, "HarmonyOS") }

  /** Without the condition an edit can land elsewhere: here upstream is unchanged, and yet
      the adapter's line replaces the wrong one of two equal lines, whatever counts as
      structural. */
  lemma WrongOneReplaced(structural: Line -> bool)
    ensures exists base: seq<Line>, theirs, ops ::
      var m := Marks(Ohos, structural);
      && IsDelta(base, theirs, ops) && Resolution(m, base, base, theirs, ops).Resolved?
      && Resolution(m, base, base, theirs, ops).lines != theirs
  {
    var a, b, n := "a;\n", "b;\n", "OHOS\n";
    assert "OHOS" <= n[0..];
    assert Ohos(n) && !Ohos(a) && n[0] != a[0];
    hide Ohos;
    WrongOfTwo(Marks(Ohos, structural), a, b, n);
  }

  /** The last of [a, b, a] replaced by n. */
  lemma WrongOfTwo(m: Marks, a: Line, b: Line, n: Line)
    requires a != n && m.ohos(n) && !m.ohos(a)
    ensures var ops := [Op(Replace, 2, 3, 2, 3)];
            && IsDelta([a, b, a], [a, b, n], ops) && Resolution(m, [a, b, a], [a, b, a], [a, b, n], ops).Resolved?
            && Resolution(m, [a, b, a], [a, b, a], [a, b, n], ops).lines != [a, b, n]
  {
    var base, theirs, op := [a, b, a], [a, b, n], Op(Replace, 2, 3, 2, 3);
    assert SeamOk(base, theirs, [op], 0) && SeamOk(base, theirs, [op], 1);
    assert IsDelta(base, theirs, [op]);
    hide IsDelta, Resolution, Replay;
    assert Added(theirs, op) == [n] && Dropped(base, op) == [a];
    assert n in [n] && m.ohos(n);
    OneReplacementResolves(m, base, theirs, op);
    assert base[..2][0] == base[2];
    OneReplacement(m, base, theirs, op);
  }

  /** With two replaced runs the condition is not necessary: whatever the lines, in [x, c, x]
      both edits land on the wrong one of two equal lines, and the result is right all the
      same. */
  lemma TwoWrongsMakeARight(m: Marks, x: Line, c: Line, y: Line)
    requires x != y && x != c && m.ohos(y) && !m.ohos(x)
    ensures var ops := [Op(Replace, 0, 1, 0, 1), Op(Replace, 2, 3, 2, 3)];
            && IsDelta([x, c, x], [y, c, y], ops) && !FirstOnce([x, c, x], ops)
            && Resolution(m, [x, c, x], [x, c, x], [y, c, y], ops) == Resolved([y, c, y])
  {
    var base, theirs := [x, c, x], [y, c, y];
    var a, b := Op(Replace, 0, 1, 0, 1), Op(Replace, 2, 3, 2, 3);
    TwoSwaps(x, c, y);
    SwapsAccepted(m, x, c, y, a, b);
    SwapsReplayed(x, c, y, a, b);
    hide IsDelta, Classify, AllAdded, AllDropped, FirstOnce, Replay;
    assert [a, b] == [Op(Replace, 0, 1, 0, 1), Op(Replace, 2, 3, 2, 3)];
  }

  lemma SwapsAccepted(m: Marks, x: Line, c: Line, y: Line, a: Op, b: Op)
    requires a == Op(Replace, 0, 1, 0, 1) && b == Op(Replace, 2, 3, 2, 3) && m.ohos(y) && !m.ohos(x)
    ensures Classify(m, AllAdded([y, c, y], [a, b]), AllDropped([x, c, x], [a, b])).None?
  {
    var base, theirs := [x, c, x], [y, c, y];
    TwoCollected(base, theirs, a, b);
    assert Added(theirs, a) == [y] == Added(theirs, b) && Dropped(base, a) == [x] == Dropped(base, b);
    hide Added, Dropped, AllAdded, AllDropped;
    assert y in [y] + [y];
  }

  lemma SwapsReplayed(x: Line, c: Line, y: Line, a: Op, b: Op)
    requires a == Op(Replace, 0, 1, 0, 1) && b == Op(Replace, 2, 3, 2, 3)
    requires x != c && x != y && OpsOk([x, c, x], [y, c, y], [a, b])
    ensures Replay([x, c, x], [x, c, x], [y, c, y], [a, b], 0) == Resolved([y, c, y])
  {
    hide Replay, Edited, OpsOk;
    var base, theirs, ops := [x, c, x], [y, c, y], [a, b];
    ReplayUnfolds(base, base, theirs, ops, 2);
    ReplayUnfolds(base, base, theirs, ops, 1);
    ReplayUnfolds(base, base, theirs, ops, 0);
    assert ops[0] == a && ops[1] == b;
    Swap(base, theirs, b, [], x, y, [c, x]);
    assert base == [] + [x] + [c, x];
    Swap(base, theirs, a, [y, c], x, y, []);
    assert [] + [y] + [c, x] == [y, c] + [x] + [] && theirs == [y, c] + [y] + [];
  }

  /** Replacing the two ends of [x, c, x] by y is a difference to [y, c, y]. */
  lemma TwoSwaps(x: Line, c: Line, y: Line)
    requires x != y
    ensures var ops := [Op(Replace, 0, 1, 0, 1), Op(Replace, 2, 3, 2, 3)];
            IsDelta([x, c, x], [y, c, y], ops) && !FirstOnce([x, c, x], ops)
  {
    var base, theirs := [x, c, x], [y, c, y];
    var a, b := Op(Replace, 0, 1, 0, 1), Op(Replace, 2, 3, 2, 3);
    var ops := [a, b];
    assert OpOk(base, theirs, a) && OpOk(base, theirs, b);
    assert SeamOk(base, theirs, ops, 0) && SeamOk(base, theirs, ops, 1) && SeamOk(base, theirs, ops, 2);
    assert base[..2][0] == x && ops[1] == b;
  }

  lemma Swap(base: seq<Line>, theirs: seq<Line>, op: Op, pre: seq<Line>, x: Line, y: Line, rest: seq<Line>)
    requires OpOk(base, theirs, op) && op.tag.Replace? && op.i2 == op.i1 + 1 && op.j2 == op.j1 + 1
    requires base[op.i1] == x && theirs[op.j1] == y && x !in pre
    ensures Edited(base, theirs, op, false, pre + [x] + rest) == Resolved(pre + [y] + rest)
  {
    var r := pre + [x] + rest;
    assert r[|pre|] == x && forall i :: 0 <= i < |pre| ==> r[i] == pre[i];
    var k := First(r, x);
    assert forall i :: 0 <= i < k ==> r[..k][i] == r[i];
    assert k == |pre|;
    assert Added(theirs, op) == [y] && r[..k] == pre && r[k + 1..] == rest;
  }

  lemma TwoCollected(base: seq<Line>, theirs: seq<Line>, a: Op, b: Op)
    ensures AllAdded(theirs, [a, b]) == Added(theirs, a) + Added(theirs, b)
    ensures AllDropped(base, [a, b]) == Dropped(base, a) + Dropped(base, b)
  {
    assert [a, b][..1] == [a];
    CollectedOne(base, theirs, a);
  }

  // ---- A whole file --------------------------------------------------------------------

  /** One conflict in a text: where it stands, its three versions, and their difference. */
  datatype Match = Match(start: nat, end: nat, ours: seq<Line>, base: seq<Line>, theirs: seq<Line>, ops: seq<Op>)

  ghost predicate InOrder(text: string, ms: seq<Match>) {
    && (forall n :: 0 <= n < |ms| ==>
          ms[n].start <= ms[n].end <= |text| && IsDelta(ms[n].base, ms[n].theirs, ms[n].ops))
    && forall n :: 0 < n < |ms| ==> ms[n - 1].end <= ms[n].start
  }

  function Text(ls: seq<Line>): string { if ls == [] then [] else ls[0] + Text(ls[1..]) }

  ghost function After(ms: seq<Match>, n: nat): nat
    requires n <= |ms|
  {
    if n == 0 then 0 else ms[n - 1].end
  }

  /** The text up to the end of conflict n - 1: resolved conflicts replaced, everything else,
      the refused conflicts with it, as it was. */
  ghost function Rewritten(m: Marks, text: string, ms: seq<Match>, n: nat): string
    requires InOrder(text, ms) && n <= |ms|
  {
    if n == 0 then []
    else
      var c := ms[n - 1];
      var v := Resolution(m, c.ours, c.base, c.theirs, c.ops);
      Rewritten(m, text, ms, n - 1) + text[After(ms, n - 1)..c.start]
      + (if v.Resolved? then Text(v.lines) else text[c.start..c.end])
  }

  /** Pairs of texts, end to end. */
  ghost function Woven(ps: seq<(string, string)>): string {
    if ps == [] then [] else Woven(ps[..|ps| - 1]) + ps[|ps| - 1].0 + ps[|ps| - 1].1
  }

  /** For each of the first n conflicts: the text before it, behind the conflict before, and
      what comes in its place, its resolution or, if it was refused, itself. */
  ghost predicate Pieces(m: Marks, text: string, ms: seq<Match>, n: nat, ps: seq<(string, string)>)
    requires InOrder(text, ms) && n <= |ms|
  {
    && |ps| == n
    && forall k :: 0 <= k < n ==>
         var c := ms[k];
         var v := Resolution(m, c.ours, c.base, c.theirs, c.ops);
         && ps[k].0 == text[(if k == 0 then 0 else ms[k - 1].end)..c.start]
         && ps[k].1 == if v.Resolved? then Text(v.lines) else text[c.start..c.end]
  }

  lemma {:induction false} RewrittenInPieces(m: Marks, text: string, ms: seq<Match>, n: nat)
      returns (ps: seq<(string, string)>)
    requires InOrder(text, ms) && n <= |ms|
    ensures Pieces(m, text, ms, n, ps) && Rewritten(m, text, ms, n) == Woven(ps)
  {
    hide Resolution, Text, Woven, Pieces;
    if n == 0 {
      ps := NoPieces(m, text, ms);
    } else {
      var c := ms[n - 1];
      var v := Resolution(m, c.ours, c.base, c.theirs, c.ops);
      var before := RewrittenInPieces(m, text, ms, n - 1);
      var piece := (text[After(ms, n - 1)..c.start], if v.Resolved? then Text(v.lines) else text[c.start..c.end]);
      ps := before + [piece];
      PieceAdded(m, text, ms, n - 1, before, piece);
      WovenOn(before, piece);
    }
  }

  lemma NoPieces(m: Marks, text: string, ms: seq<Match>) returns (ps: seq<(string, string)>)
    requires InOrder(text, ms)
    ensures Pieces(m, text, ms, 0, ps) && Rewritten(m, text, ms, 0) == Woven(ps)
  {
    ps := [];
  }

  lemma WovenOn(ps: seq<(string, string)>, p: (string, string))
    ensures Woven(ps + [p]) == Woven(ps) + p.0 + p.1
  {
    assert (ps + [p])[..|ps|] == ps;
  }

  lemma PieceAdded(m: Marks, text: string, ms: seq<Match>, n: nat, ps: seq<(string, string)>, p: (string, string))
    requires InOrder(text, ms) && n < |ms| && Pieces(m, text, ms, n, ps)
    requires var c := ms[n];
             var v := Resolution(m, c.ours, c.base, c.theirs, c.ops);
             && p.0 == text[After(ms, n)..c.start]
             && p.1 == if v.Resolved? then Text(v.lines) else text[c.start..c.end]
    ensures Pieces(m, text, ms, n + 1, ps + [p])
  {
    hide Resolution, Text;
    assert (ps + [p])[n] == p && forall k :: 0 <= k < n ==> (ps + [p])[k] == ps[k];
  }

  /** A text in which nothing could be resolved comes out as it went in. */
  lemma NothingRewritten(m: Marks, text: string, ms: seq<Match>)
    requires InOrder(text, ms)
    ensures Rewritten(m, text, ms, 0) == []
  {
  }

  lemma RewrittenNext(m: Marks, text: string, ms: seq<Match>, n: nat)
    requires InOrder(text, ms) && n < |ms|
    ensures var c := ms[n];
            var v := Resolution(m, c.ours, c.base, c.theirs, c.ops);
            Rewritten(m, text, ms, n + 1)
            == Rewritten(m, text, ms, n) + text[After(ms, n)..c.start]
               + (if v.Resolved? then Text(v.lines) else text[c.start..c.end])
  {
    hide Resolution, Text;
  }

  method RewriteFile(m: Marks, text: string, ms: seq<Match>) returns (out: string, resolved: nat, kept: nat)
    requires InOrder(text, ms)
    ensures out == Rewritten(m, text, ms, |ms|) + text[After(ms, |ms|)..]
    ensures resolved + kept == |ms| && (resolved == 0 ==> out == text)
    ensures exists ps ::
      Pieces(m, text, ms, |ms|, ps) && out == Woven(ps) + text[if ms == [] then 0 else ms[|ms| - 1].end..]
  {
    hide Resolution, Pieces, Rewritten, Text;
    ghost var ps := RewrittenInPieces(m, text, ms, |ms|);
    NothingRewritten(m, text, ms);
    out, resolved, kept := [], 0, 0;
    var pos := 0;
    for n := 0 to |ms|
      invariant out == Rewritten(m, text, ms, n) && pos == After(ms, n) <= |text|
      invariant resolved + kept == n && (resolved == 0 ==> out == text[..pos])
      invariant n < |ms| ==> pos <= ms[n].start
    {
      var c := ms[n];
      RewrittenNext(m, text, ms, n);
      assert n + 1 < |ms| ==> ms[n + 1 - 1].end <= ms[n + 1].start;
      out := out + text[pos..c.start];
      pos := c.end;
      var v := ResolveBlock(m, c.ours, c.base, c.theirs, c.ops);
      if v.Refused? {
        out := out + text[c.start..c.end];
        kept := kept + 1;
      } else {
        out := out + Text(v.lines);
        resolved := resolved + 1;
      }
    }
    out := out + text[pos..];
  }
}
