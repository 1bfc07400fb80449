/** Matching preprocessor conditionals: backward from an #endif
    (scripts/find-missing-returns.py) and forward from an #if, #elif or #else
    (scripts/audit-ohos-guards.py). A line's directive is an input. */
module Guards {
  datatype Directive = If | Ifdef | Elif | Else | Endif | NoDirective

  /** `indented` says whether blanks come before the #, `continued` whether the line ends in
      a backslash. */
  datatype Line = Line(directive: Directive, indented: bool, continued: bool)

  /** The two scripts read lines differently: the backward one sees directives in the first
      column only, the forward one does not take #ifdef and #ifndef for openings. The
      preprocessor does neither. */
  datatype View = Backward | Forward | Full

  predicate Opens(v: View, l: Line) {
    match v
    case Backward => !l.indented && (l.directive.If? || l.directive.Ifdef?)
    case Forward => l.directive.If?
    case Full => l.directive.If? || l.directive.Ifdef?
  }

  predicate Closes(v: View, l: Line) { l.directive.Endif? && (v.Backward? ==> !l.indented) }

  /** An #else as the backward script sees one. */
  predicate IsElse(l: Line) { l.directive.Else? && !l.indented }

  /** A line that ends an arm, if it is at the arm's own level. */
  predicate EndsArm(l: Line) { l.directive.Elif? || l.directive.Else? || l.directive.Endif? }

  function Weight(v: View, l: Line): int { if Opens(v, l) then 1 else if Closes(v, l) then -1 else 0 }

  /** Blocks opened less blocks closed in lines a to b - 1. */
  ghost function Net(v: View, lines: seq<Line>, a: nat, b: nat): int
    requires b <= |lines|
  {
    if b <= a then 0 else Net(v, lines, a, b - 1) + Weight(v, lines[b - 1])
  }

  lemma {:induction false} NetSplits(v: View, lines: seq<Line>, a: nat, b: nat, c: nat)
    requires a <= b <= c <= |lines|
    ensures Net(v, lines, a, c) == Net(v, lines, a, b) + Net(v, lines, b, c)
    decreases c
  {
    if b < c {
      NetSplits(v, lines, a, b, c - 1);
    }
  }

  /** From line a to before line b, nothing is closed that was not opened there. */
  ghost predicate NeverBelow(v: View, lines: seq<Line>, a: nat, b: nat)
    requires b <= |lines|
  {
    forall k :: a <= k <= b ==> Net(v, lines, a, k) >= 0
  }

  /** What is between the two lines is balanced. */
  ghost predicate Encloses(v: View, lines: seq<Line>, i: nat, e: nat) {
    i < e < |lines| && Net(v, lines, i + 1, e) == 0 && NeverBelow(v, lines, i + 1, e)
  }

  /** Line i opens the block that line e closes. */
  ghost predicate Matches(v: View, lines: seq<Line>, i: nat, e: nat) {
    Encloses(v, lines, i, e) && Opens(v, lines[i])
  }

  /** Line k is directly inside the block that line i opens. */
  ghost predicate OwnLevel(v: View, lines: seq<Line>, i: nat, k: nat) {
    i < k < |lines| && Net(v, lines, i + 1, k) == 0
  }

  ghost predicate HasElse(lines: seq<Line>, i: nat, e: nat) {
    exists k: nat :: k < e && OwnLevel(Backward, lines, i, k) && IsElse(lines[k])
  }

  // ---- Backward ------------------------------------------------------------------

  /** Nothing from line i on opens the block that ends before line e. */
  ghost predicate StillOpen(lines: seq<Line>, i: nat, e: nat)
    requires i <= e <= |lines|
  {
    && (forall k :: i <= k <= e ==> Net(Backward, lines, k, e) <= 0)
    && forall k :: i <= k < e && Opens(Backward, lines[k]) ==> Net(Backward, lines, k + 1, e) < 0
  }

  lemma NetBefore(v: View, lines: seq<Line>, i: nat, e: nat)
    requires i < e <= |lines|
    ensures Net(v, lines, i, e) == Weight(v, lines[i]) + Net(v, lines, i + 1, e)
  {
    NetSplits(v, lines, i, i + 1, e);
    assert Net(v, lines, i, i) == 0;
  }

  lemma Found(lines: seq<Line>, i: nat, e: nat)
    requires i < e < |lines| && StillOpen(lines, i + 1, e)
    requires Opens(Backward, lines[i]) && Net(Backward, lines, i + 1, e) == 0
    ensures Matches(Backward, lines, i, e)
  {
    var a := i + 1;
    forall k | a <= k <= e ensures Net(Backward, lines, a, k) >= 0 {
      NetSplits(Backward, lines, a, k, e);
    }
  }

  lemma NotFound(lines: seq<Line>, e: nat, i: nat)
    requires e < |lines| && StillOpen(lines, 0, e)
    ensures !Matches(Backward, lines, i, e)
  {
  }

  lemma MatchIsUnique(v: View, lines: seq<Line>, i: nat, j: nat, e: nat)
    requires Matches(v, lines, i, e) && Matches(v, lines, j, e)
    ensures i == j
  {
    var a, b := if i < j then i else j, if i < j then j else i;
    if a < b {
      NetSplits(v, lines, a + 1, b, e);
      NetBefore(v, lines, b, e);
    }
  }

  lemma ElseLevel(lines: seq<Line>, i: nat, k: nat, e: nat)
    requires Matches(Backward, lines, i, e) && i < k < e && Weight(Backward, lines[k]) == 0
    ensures OwnLevel(Backward, lines, i, k) <==> Net(Backward, lines, k + 1, e) == 0
  {
    NetSplits(Backward, lines, i + 1, k, e);
    NetBefore(Backward, lines, k, e);
  }

  /** Walks back from line e. The index is that of the opening line, or -1 if there is none;
      `hasElse` says whether that block has an #else of its own. */
  method EnclosingIf(lines: seq<Line>, e: nat) returns (index: int, hasElse: bool)
    requires e < |lines|
    ensures index == -1 || (0 <= index < e && Matches(Backward, lines, index, e))
    ensures index == -1 ==> forall i: nat :: !Matches(Backward, lines, i, e)
    ensures index != -1 ==>
      (hasElse <==> HasElse(lines, index, e))
  {
    var depth := 0;
    hasElse := false;
    var i := e;
    while i > 0
      invariant 0 <= i <= e && depth == -Net(Backward, lines, i, e) && StillOpen(lines, i, e)
      invariant hasElse <==> exists k :: i <= k < e && IsElse(lines[k]) && Net(Backward, lines, k + 1, e) == 0
    {
      i := i - 1;
      NetBefore(Backward, lines, i, e);
      var l := lines[i];
      if Closes(Backward, l) {
        depth := depth + 1;
      } else if Opens(Backward, l) {
        if depth == 0 {
          Found(lines, i, e);
          forall k | i < k < e && IsElse(lines[k])
            ensures OwnLevel(Backward, lines, i, k) <==> Net(Backward, lines, k + 1, e) == 0
          {
            ElseLevel(lines, i, k, e);
          }
          return i, hasElse;
        }
        depth := depth - 1;
      } else if IsElse(l) && depth == 0 {
        hasElse := true;
      }
    }
    forall i: nat ensures !Matches(Backward, lines, i, e) {
      NotFound(lines, e, i);
    }
    return -1, hasElse;
  }

  // ---- Forward -------------------------------------------------------------------

  /** A line at the level of line a's arm that ends it. */
  ghost predicate EndOfArm(lines: seq<Line>, a: nat, j: nat) {
    a < j < |lines| && EndsArm(lines[j]) && Net(Forward, lines, a + 1, j) == 0
  }

  /** The lines of an arm, from after its directive to the first line that ends it, or to the
      end of the file. */
  method BlockBody(lines: seq<Line>, after: nat) returns (body: seq<Line>, i: nat)
    requires after < |lines|
    ensures after < i <= |lines| && body == lines[after + 1..i]
    ensures i < |lines| ==> EndOfArm(lines, after, i)
    ensures forall j :: after < j < i ==> !EndOfArm(lines, after, j)
    ensures i == ArmEnd(lines, after) && NeverBelow(Forward, lines, after + 1, i)
  {
    var depth := 0;
    body := [];
    i := after + 1;
    while i < |lines|
      invariant after < i <= |lines| && body == lines[after + 1..i]
      invariant depth == Net(Forward, lines, after + 1, i) >= 0
      invariant forall j :: after < j < i ==> !EndOfArm(lines, after, j)
      invariant NeverBelow(Forward, lines, after + 1, i)
    {
      var l := lines[i];
      if Opens(Forward, l) {
        depth := depth + 1;
      } else if EndsArm(l) {
        if depth == 0 {
          break;
        }
        if Closes(Forward, l) {
          depth := depth - 1;
        }
      }
      body := body + [l];
      i := i + 1;
    }
    EndIsFirst(lines, after, i);
  }

  /** Where the arm of line a ends. */
  ghost function ArmEnd(lines: seq<Line>, a: nat): (j: nat)
    requires a < |lines|
    ensures a < j <= |lines| && (j < |lines| ==> EndOfArm(lines, a, j))
    ensures forall k :: a < k < j ==> !EndOfArm(lines, a, k)
  {
    FirstEnd(lines, a, a + 1)
  }

  ghost function FirstEnd(lines: seq<Line>, a: nat, i: nat): (j: nat)
    requires a < i <= |lines|
    ensures i <= j <= |lines| && (j < |lines| ==> EndOfArm(lines, a, j))
    ensures forall k :: i <= k < j ==> !EndOfArm(lines, a, k)
    decreases |lines| - i
  {
    if i == |lines| || EndOfArm(lines, a, i) then i else FirstEnd(lines, a, i + 1)
  }

  lemma EndIsFirst(lines: seq<Line>, a: nat, i: nat)
    requires a < i <= |lines| && (i < |lines| ==> EndOfArm(lines, a, i))
    requires forall k :: a < k < i ==> !EndOfArm(lines, a, k)
    ensures ArmEnd(lines, a) == i
  {
    hide EndOfArm;
    var j := ArmEnd(lines, a);
    assert i < j ==> !EndOfArm(lines, a, i);
  }

  /** Following the arms of a conditional from line a: each arm's end, up to the #endif or
      the end of the file. */
  ghost function Arms(lines: seq<Line>, a: nat): (arms: seq<nat>)
    requires a < |lines|
    ensures arms != [] && forall n :: 0 <= n < |arms| ==> a < arms[n] <= |lines|
    decreases |lines| - a
  {
    var j := ArmEnd(lines, a);
    if j == |lines| || lines[j].directive.Endif? then [j] else [j] + Arms(lines, j)
  }

  // ---- Arms ----------------------------------------------------------------------

  /** Line k begins an arm of the block that line i opens. */
  ghost predicate ArmOf(lines: seq<Line>, i: nat, k: nat) {
    && i <= k < |lines| && Net(Forward, lines, i + 1, k + 1) == 0
    && NeverBelow(Forward, lines, i + 1, k + 1)
  }

  /** From an arm, levels count as from the opening. */
  lemma SameLevel(lines: seq<Line>, i: nat, k: nat, j: nat)
    requires ArmOf(lines, i, k) && k < j <= |lines|
    ensures Net(Forward, lines, i + 1, j) == Net(Forward, lines, k + 1, j)
    ensures NeverBelow(Forward, lines, i + 1, j) <==> NeverBelow(Forward, lines, k + 1, j)
  {
    var a, b := i + 1, k + 1;
    forall m | b <= m <= j ensures Net(Forward, lines, a, m) == Net(Forward, lines, b, m) {
      NetSplits(Forward, lines, a, b, m);
    }
  }

  /** An end of an arm that is not the #endif begins the next. */
  lemma NextArm(lines: seq<Line>, i: nat, k: nat, j: nat)
    requires ArmOf(lines, i, k) && EndOfArm(lines, k, j) && NeverBelow(Forward, lines, i + 1, j)
    ensures ArmOf(lines, i, j) <==> !lines[j].directive.Endif?
  {
    SameLevel(lines, i, k, j);
    assert Net(Forward, lines, i + 1, j + 1) == Weight(Forward, lines[j]);
  }

  lemma {:induction false} ArmLevels(lines: seq<Line>, k: nat, j: nat, m: nat)
    requires k < m <= j <= |lines| && forall n :: k < n < j ==> !EndOfArm(lines, k, n)
    ensures Net(Forward, lines, k + 1, m) >= 0
    decreases m
  {
    if m > k + 1 {
      ArmLevels(lines, k, j, m - 1);
      assert !EndOfArm(lines, k, m - 1);
    }
  }

  lemma ArmNeverBelow(lines: seq<Line>, i: nat, k: nat)
    requires ArmOf(lines, i, k)
    ensures NeverBelow(Forward, lines, i + 1, ArmEnd(lines, k))
  {
    var a, j := k + 1, ArmEnd(lines, k);
    forall m | a <= m <= j ensures Net(Forward, lines, a, m) >= 0 {
      ArmLevels(lines, k, j, m);
    }
    SameLevel(lines, i, k, j);
  }

  /** The ends of the arms are exactly the lines at the block's own level that end one. */
  lemma {:induction false} ArmsOfMatch(lines: seq<Line>, i: nat, k: nat, e: nat)
    requires ArmOf(lines, i, k) && k < e && Encloses(Forward, lines, i, e) && lines[e].directive.Endif?
    ensures Arms(lines, k)[|Arms(lines, k)| - 1] == e
    ensures forall m :: m in Arms(lines, k) <==> k < m <= e && EndsArm(lines[m]) && OwnLevel(Forward, lines, i, m)
    decreases e - k
  {
    var j := ArmEnd(lines, k);
    SameLevel(lines, i, k, e);
    assert EndOfArm(lines, k, e);
    SameLevel(lines, i, k, j);
    ArmNeverBelow(lines, i, k);
    NextArm(lines, i, k, j);
    forall m | k < m < j ensures !(EndsArm(lines[m]) && OwnLevel(Forward, lines, i, m)) {
      SameLevel(lines, i, k, m);
      assert !EndOfArm(lines, k, m);
    }
    if lines[j].directive.Endif? {
      EndifCloses(lines, i, j, e);
    } else {
      ArmsOfMatch(lines, i, j, e);
    }
  }

  lemma EndifCloses(lines: seq<Line>, i: nat, j: nat, e: nat)
    requires Encloses(Forward, lines, i, e) && OwnLevel(Forward, lines, i, j) && j <= e && lines[j].directive.Endif?
    ensures j == e
  {
    var a := i + 1;
    assert Net(Forward, lines, a, j + 1) == -1;
    assert j < e ==> a <= j + 1 <= e;
  }

  lemma {:induction false} MatchOfArms(lines: seq<Line>, i: nat, k: nat)
    requires ArmOf(lines, i, k)
    ensures var e := Arms(lines, k)[|Arms(lines, k)| - 1];
            e < |lines| ==> lines[e].directive.Endif? && Encloses(Forward, lines, i, e)
    decreases |lines| - k
  {
    var j := ArmEnd(lines, k);
    ArmNeverBelow(lines, i, k);
    SameLevel(lines, i, k, j);
    if j < |lines| {
      NextArm(lines, i, k, j);
      if !lines[j].directive.Endif? {
        MatchOfArms(lines, i, j);
      }
    }
  }

  // ---- What misleads the forward walk ----------------------------------------------

  ghost predicate IfdefFree(lines: seq<Line>, a: nat, b: nat)
    requires b <= |lines|
  {
    forall k :: a <= k < b ==> !lines[k].directive.Ifdef?
  }

  ghost function Ifdefs(lines: seq<Line>, a: nat, b: nat): (n: nat)
    requires b <= |lines|
    ensures n == 0 <==> IfdefFree(lines, a, b)
  {
    if b <= a then 0 else Ifdefs(lines, a, b - 1) + (if lines[b - 1].directive.Ifdef? then 1 else 0)
  }

  lemma {:induction false} IfdefsUncounted(lines: seq<Line>, a: nat, b: nat)
    requires b <= |lines|
    ensures Net(Full, lines, a, b) == Net(Forward, lines, a, b) + Ifdefs(lines, a, b)
    decreases b
  {
    if a < b {
      IfdefsUncounted(lines, a, b - 1);
    }
  }

  /** The first line at the true level of line a's arm that ends it. */
  ghost predicate TrueEnd(lines: seq<Line>, a: nat, t: nat) {
    && a < t < |lines| && EndsArm(lines[t]) && Net(Full, lines, a + 1, t) == 0
    && forall k :: a < k < t && EndsArm(lines[k]) ==> Net(Full, lines, a + 1, k) != 0
  }

  /** The forward walk never goes past the end of an arm, and stops at it exactly when there
      is no #ifdef or #ifndef in the arm. */
  lemma ArmEndExact(lines: seq<Line>, a: nat, t: nat)
    requires TrueEnd(lines, a, t)
    ensures ArmEnd(lines, a) <= t
    ensures ArmEnd(lines, a) == t <==> IfdefFree(lines, a + 1, t)
  {
    var j := ArmEnd(lines, a);
    IfdefsUncounted(lines, a + 1, t);
    assert EndOfArm(lines, a, t) <==> Net(Forward, lines, a + 1, t) == 0;
    if t < j {
      ArmLevels(lines, a, j, t);
    } else if j < t {
      IfdefsUncounted(lines, a + 1, j);
    }
  }

  /** Following the arms of a block ends at its #endif exactly when no #ifdef or #ifndef is
      inside. */
  lemma ForwardExact(lines: seq<Line>, i: nat, e: nat)
    requires Encloses(Full, lines, i, e) && lines[e].directive.Endif?
    ensures Arms(lines, i)[|Arms(lines, i)| - 1] == e <==> IfdefFree(lines, i + 1, e)
  {
    assert ArmOf(lines, i, i);
    IfdefsUncounted(lines, i + 1, e);
    MatchOfArms(lines, i, i);
    if IfdefFree(lines, i + 1, e) {
      var a := i + 1;
      forall k | a <= k <= e ensures Net(Forward, lines, a, k) >= 0 {
        IfdefsUncounted(lines, a, k);
      }
      ArmsOfMatch(lines, i, i, e);
    }
  }

  /** A nested #ifdef misleads the forward walk: it stops at the inner #endif. */
  lemma IfdefMisleads()
    ensures exists lines: seq<Line> :: |lines| == 4 && Matches(Full, lines, 0, 3) && Arms(lines, 0) == [2]
  {
    var endif := Line(Endif, false, false);
    var lines := [Line(If, false, false), Line(Ifdef, false, false), endif, endif];
    assert Net(Full, lines, 1, 1) == 0 && Net(Full, lines, 1, 2) == 1 && Net(Full, lines, 1, 3) == 0;
    assert Net(Forward, lines, 1, 1) == 0 && Net(Forward, lines, 1, 2) == 0;
    assert EndOfArm(lines, 0, 2);
    assert Matches(Full, lines, 0, 3);
  }

  // ---- What misleads the backward walk ---------------------------------------------

  /** Blocks opened less blocks closed by indented directives. */
  ghost function Hidden(lines: seq<Line>, a: nat, b: nat): int
    requires b <= |lines|
  {
    if b <= a then 0 else Hidden(lines, a, b - 1) + (if lines[b - 1].indented then Weight(Full, lines[b - 1]) else 0)
  }

  lemma {:induction false} IndentedUncounted(lines: seq<Line>, a: nat, b: nat)
    requires b <= |lines|
    ensures Net(Full, lines, a, b) == Net(Backward, lines, a, b) + Hidden(lines, a, b)
    decreases b
  {
    if a < b {
      IndentedUncounted(lines, a, b - 1);
    }
  }

  /** The indented directives of a block even out, and open no more than is open. */
  ghost predicate HiddenEvenly(lines: seq<Line>, i: nat, e: nat)
    requires e <= |lines|
  {
    var a := i + 1;
    && Hidden(lines, a, e) == 0
    && forall k :: a <= k <= e ==> Hidden(lines, a, k) <= Net(Full, lines, a, k)
  }

  /** The backward walk finds the line that opens a block exactly when that line is not
      indented and the indented directives inside even out. */
  lemma BackwardExact(lines: seq<Line>, i: nat, e: nat)
    requires Matches(Full, lines, i, e)
    ensures Matches(Backward, lines, i, e) <==> !lines[i].indented && HiddenEvenly(lines, i, e)
  {
    var a := i + 1;
    forall k | a <= k <= e
      ensures Net(Backward, lines, a, k) >= 0 <==> Hidden(lines, a, k) <= Net(Full, lines, a, k)
    {
      IndentedUncounted(lines, a, k);
    }
    IndentedUncounted(lines, a, e);
  }

  /** It reports an #else exactly when one in the first column is at a level where every open
      block is an indented one. */
  lemma ElseExact(lines: seq<Line>, i: nat, e: nat)
    requires Matches(Backward, lines, i, e)
    ensures HasElse(lines, i, e)
        <==> exists k: nat :: i < k < e && IsElse(lines[k]) && Net(Full, lines, i + 1, k) == Hidden(lines, i + 1, k)
  {
    var a := i + 1;
    forall k: nat | i < k < e
      ensures OwnLevel(Backward, lines, i, k) <==> Net(Full, lines, a, k) == Hidden(lines, a, k)
    {
      IndentedUncounted(lines, a, k);
    }
  }

  /** An indented nested #if misleads the backward walk: for the outer #endif it finds nothing,
      and for the inner one the outer #if. An indented #else it misses. */
  lemma IndentMisleads()
    ensures exists lines: seq<Line> ::
      && |lines| == 4 && Matches(Full, lines, 0, 3) && Matches(Full, lines, 1, 2)
      && Matches(Backward, lines, 0, 2) && forall i :: !Matches(Backward, lines, i, 3)
    ensures exists lines: seq<Line> ::
      |lines| == 3 && Matches(Backward, lines, 0, 2) && OwnLevel(Full, lines, 0, 1) && lines[1].directive.Else?
      && !HasElse(lines, 0, 2)
  {
    var open, close := Line(If, false, false), Line(Endif, false, false);
    var lines := [open, Line(If, true, false), close, close];
    assert Net(Full, lines, 1, 1) == 0 && Net(Full, lines, 1, 2) == 1 && Net(Full, lines, 1, 3) == 0;
    assert Net(Full, lines, 2, 2) == 0;
    assert Net(Backward, lines, 1, 1) == 0 && Net(Backward, lines, 1, 2) == 0 && Net(Backward, lines, 1, 3) == -1;
    assert Matches(Full, lines, 0, 3) && Matches(Full, lines, 1, 2) && Matches(Backward, lines, 0, 2);
    forall i ensures !Matches(Backward, lines, i, 3) {
    }
    var missed := [open, Line(Else, true, false), close];
    assert Net(Full, missed, 1, 1) == 0 && Net(Backward, missed, 1, 1) == 0 && Net(Backward, missed, 1, 2) == 0;
    assert Matches(Backward, missed, 0, 2) && OwnLevel(Full, missed, 0, 1);
  }

  // ---- Agreement -------------------------------------------------------------------

  /** For a block of the preprocessor: both walks find it exactly when no #ifdef is inside, its
      opening line is not indented, and the indented directives inside even out. */
  lemma WalksAgree(lines: seq<Line>, i: nat, e: nat)
    requires Matches(Full, lines, i, e) && lines[e].directive.Endif?
    ensures Matches(Backward, lines, i, e) && Arms(lines, i)[|Arms(lines, i)| - 1] == e
        <==> !lines[i].indented && HiddenEvenly(lines, i, e) && IfdefFree(lines, i + 1, e)
  {
    hide Arms, HiddenEvenly, IfdefFree;
    ForwardExact(lines, i, e);
    BackwardExact(lines, i, e);
  }

  /** Between these lines every directive is in the first column, and only #if opens. */
  ghost predicate Plain(lines: seq<Line>, i: nat, e: nat)
    requires e < |lines|
  {
    forall k :: i <= k <= e ==> !lines[k].directive.Ifdef? && (lines[k].indented ==> lines[k].directive.NoDirective?)
  }

  lemma {:induction false} ViewsAgree(lines: seq<Line>, i: nat, e: nat, a: nat, b: nat)
    requires i <= a && b <= e < |lines| && Plain(lines, i, e)
    ensures Net(Backward, lines, a, b) == Net(Forward, lines, a, b) == Net(Full, lines, a, b)
    ensures Hidden(lines, a, b) == 0
    decreases b
  {
    if a < b {
      ViewsAgree(lines, i, e, a, b - 1);
    }
  }

  lemma MatchesInAll(lines: seq<Line>, i: nat, e: nat)
    requires i < e < |lines| && Plain(lines, i, e)
    ensures Encloses(Backward, lines, i, e) <==> Encloses(Full, lines, i, e)
    ensures Encloses(Forward, lines, i, e) <==> Encloses(Full, lines, i, e)
    ensures Encloses(Full, lines, i, e) ==> HiddenEvenly(lines, i, e)
  {
    var a := i + 1;
    forall b | a <= b <= e
      ensures Net(Backward, lines, a, b) == Net(Forward, lines, a, b) == Net(Full, lines, a, b)
      ensures Hidden(lines, a, b) == 0
    {
      ViewsAgree(lines, i, e, a, b);
    }
  }

  /** A line is the beginning of a further arm, or the #endif, exactly when it ends an arm at
      the block's own level, as the backward script counts levels. */
  lemma IsArm(lines: seq<Line>, i: nat, e: nat, k: nat)
    requires Matches(Forward, lines, i, e) && lines[e].directive.Endif? && Plain(lines, i, e)
    ensures Arms(lines, i)[|Arms(lines, i)| - 1] == e
    ensures k in Arms(lines, i) <==> k <= e && EndsArm(lines[k]) && OwnLevel(Backward, lines, i, k)
    ensures k in Arms(lines, i) && lines[k].directive.Else? ==> k < e && IsElse(lines[k])
  {
    assert ArmOf(lines, i, i);
    hide Arms, OwnLevel, ArmOf, Matches;
    ArmsOfMatch(lines, i, i, e);
    if k <= e {
      LevelsAgree(lines, i, e, k);
    }
  }

  lemma ElseIsAnArm(lines: seq<Line>, i: nat, e: nat)
    requires Matches(Forward, lines, i, e) && lines[e].directive.Endif? && Plain(lines, i, e)
    ensures Arms(lines, i)[|Arms(lines, i)| - 1] == e
    ensures HasElse(lines, i, e) <==> exists k :: k in Arms(lines, i) && k < |lines| && lines[k].directive.Else?
  {
    IsArm(lines, i, e, 0);
    hide Arms, OwnLevel, Matches, Plain;
    if k: nat :| k < e && OwnLevel(Backward, lines, i, k) && IsElse(lines[k]) {
      assert EndsArm(lines[k]);
      IsArm(lines, i, e, k);
    }
    if k :| k in Arms(lines, i) && k < |lines| && lines[k].directive.Else? {
      IsArm(lines, i, e, k);
    }
  }

  lemma LevelsAgree(lines: seq<Line>, i: nat, e: nat, k: nat)
    requires k <= e < |lines| && Plain(lines, i, e)
    ensures OwnLevel(Backward, lines, i, k) <==> OwnLevel(Forward, lines, i, k)
    ensures OwnLevel(Backward, lines, i, k) ==> i < k
  {
    ViewsAgree(lines, i, e, i + 1, k);
  }

  /** Where every directive is in the first column and only #if opens, the walks agree on any
      two lines: walking back from an #endif finds an #if exactly when following that
      conditional's arms ends at the #endif, and an #else is reported exactly when one of
      those arms begins with one. */
  lemma PlainWalksAgree(lines: seq<Line>, i: nat, e: nat)
    requires i < e < |lines| && lines[i].directive.If? && lines[e].directive.Endif? && Plain(lines, i, e)
    ensures Matches(Backward, lines, i, e) <==> Arms(lines, i)[|Arms(lines, i)| - 1] == e
    ensures Matches(Backward, lines, i, e) ==>
      (HasElse(lines, i, e) <==> exists k :: k in Arms(lines, i) && k < |lines| && lines[k].directive.Else?)
  {
    MatchesInAll(lines, i, e);
    assert ArmOf(lines, i, i);
    assert !lines[i].indented && IfdefFree(lines, i + 1, e);
    hide ArmOf, Encloses, Arms, Plain, HasElse, HiddenEvenly, IfdefFree;
    MatchOfArms(lines, i, i);
    if Encloses(Full, lines, i, e) {
      WalksAgree(lines, i, e);
      ElseIsAnArm(lines, i, e);
    }
  }

  // ---- Continued directives --------------------------------------------------------

  /** The last line of the directive that begins at `start`. */
  method DirectiveSpan(lines: seq<Line>, start: nat) returns (first: nat, last: nat)
    requires start < |lines|
    ensures first == start <= last < |lines|
    ensures forall k :: start <= k < last ==> lines[k].continued
    ensures last == |lines| - 1 || !lines[last].continued
  {
    first, last := start, start;
    while last < |lines| - 1 && lines[last].continued
      invariant start <= last < |lines|
      invariant forall k :: start <= k < last ==> lines[k].continued
    {
      last := last + 1;
    }
  }

  /** Starting after the continuation lines of a directive makes no difference to its arm. */
  lemma ContinuationsDoNotCount(lines: seq<Line>, start: nat, last: nat)
    requires start <= last < |lines| && forall k :: start < k <= last ==> lines[k].directive.NoDirective?
    ensures ArmEnd(lines, start) == ArmEnd(lines, last)
  {
    forall j | last < j < |lines| ensures EndOfArm(lines, start, j) <==> EndOfArm(lines, last, j) {
      NetSplits(Forward, lines, start + 1, last + 1, j);
      NoWeight(lines, start + 1, last + 1);
    }
    forall j | start < j <= last ensures !EndOfArm(lines, start, j) {
    }
  }

  lemma {:induction false} NoWeight(lines: seq<Line>, a: nat, b: nat)
    requires a <= b <= |lines| && forall k :: a <= k < b ==> lines[k].directive.NoDirective?
    ensures Net(Forward, lines, a, b) == 0
    decreases b
  {
    if a < b {
      NoWeight(lines, a, b - 1);
    }
  }
}
