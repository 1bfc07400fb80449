/** Re-applying one inserted platform entry to upstream's version of a line
    (scripts/merge-platform-lists.py). */
module PlatformLists {
  import opened Blanks
  import opened Opcodes
  import opened Options

  // ---- Joining continuation lines --------------------------------------------

  predicate Continued(l: string) {
    var r := Rstrip(l);
    r != [] && r[|r| - 1] == '\\'
  }

  /** The line with its backslash, and the blanks around it, taken off. */
  function Opened(l: string): string
    requires Continued(l)
  {
    var r := Rstrip(l);
    Rstrip(r[..|r| - 1])
  }

  function JoinNext(out: seq<string>, line: string): seq<string> {
    if out != [] && Continued(out[|out| - 1]) then
      out[..|out| - 1] + [Opened(out[|out| - 1]) + [' '] + Strip(line)]
    else out + [line]
  }

  ghost function Joined(lines: seq<string>): seq<string> {
    if lines == [] then [] else JoinNext(Joined(lines[..|lines| - 1]), lines[|lines| - 1])
  }

  /** No line but the last ends in a backslash. */
  ghost predicate Logical(lines: seq<string>) { forall i :: 0 <= i < |lines| - 1 ==> !Continued(lines[i]) }

  method JoinContinuations(lines: seq<string>) returns (out: seq<string>)
    ensures out == Joined(lines) && Logical(out)
  {
    hide Continued, Opened, Strip, Logical;
    out := [];
    JoinedIsLogical(lines);
    for n := 0 to |lines|
      invariant out == Joined(lines[..n])
    {
      assert lines[..n + 1][..n] == lines[..n];
      if out != [] && Continued(out[|out| - 1]) {
        out := out[..|out| - 1] + [Opened(out[|out| - 1]) + [' '] + Strip(lines[n])];
      } else {
        out := out + [lines[n]];
      }
    }
    assert lines[..|lines|] == lines;
  }

  /** Joining one line more: if the last logical line so far ends in a backslash, blanks behind
      it aside, the new line comes behind it, without the blanks around it: where the
      backslash and the blanks before it were there is one blank. */
  lemma OneLineMore(lines: seq<string>, line: string, out: seq<string>, next: seq<string>)
    requires out == Joined(lines) && next == Joined(lines + [line])
    ensures LineBehind(out, line, next)
  {
    hide LineBehind;
    assert (lines + [line])[..|lines|] == lines;
    assert next == JoinNext(out, line);
    NextLine(out, line);
  }

  ghost predicate LineBehind(out: seq<string>, line: string, next: seq<string>) {
    if out == [] then next == [line]
    else
      var n := |out| - 1;
      var r := Rstrip(out[n]);
      next == if r != [] && r[|r| - 1] == '\\' then out[..n] + [Rstrip(r[..|r| - 1]) + " " + Strip(line)]
              else out + [line]
  }

  lemma NextLine(out: seq<string>, line: string)
    ensures LineBehind(out, line, JoinNext(out, line))
  {
    hide Strip, Rstrip;
    assert out == [] ==> out + [line] == [line];
  }

  lemma NextIsLogical(out: seq<string>, line: string)
    requires Logical(out)
    ensures Logical(JoinNext(out, line))
  {
    hide Continued, Opened, Strip;
    var next := JoinNext(out, line);
    forall i | 0 <= i < |next| - 1 ensures !Continued(next[i]) {
      assert next[i] == out[i];
    }
  }

  lemma {:induction false} JoinedIsLogical(lines: seq<string>)
    ensures Logical(Joined(lines))
  {
    if lines != [] {
      hide Continued, Opened, Strip;
      JoinedIsLogical(lines[..|lines| - 1]);
      NextIsLogical(Joined(lines[..|lines| - 1]), lines[|lines| - 1]);
    }
  }

  lemma {:induction false} LogicalIsJoined(lines: seq<string>)
    requires Logical(lines)
    ensures Joined(lines) == lines
  {
    hide Continued, Opened, Strip;
    if lines != [] {
      LogicalIsJoined(lines[..|lines| - 1]);
      assert lines == lines[..|lines| - 1] + [lines[|lines| - 1]];
    }
  }

  /** Joining what is joined already changes nothing; and only such lines stay as they are. */
  lemma JoiningOnce(lines: seq<string>)
    ensures Joined(Joined(lines)) == Joined(lines)
    ensures Joined(lines) == lines <==> Logical(lines)
  {
    JoinedIsLogical(lines);
    LogicalIsJoined(Joined(lines));
    if Logical(lines) {
      LogicalIsJoined(lines);
    }
  }

  /** The characters that are neither blanks nor backslashes. */
  ghost function Ink(s: string): string {
    if s == [] then []
    else Ink(s[..|s| - 1]) + (if Blank(s[|s| - 1]) || s[|s| - 1] == '\\' then [] else [s[|s| - 1]])
  }

  ghost function AllInk(lines: seq<string>): string {
    if lines == [] then [] else AllInk(lines[..|lines| - 1]) + Ink(lines[|lines| - 1])
  }

  lemma {:induction false} InkSplits(a: string, b: string)
    ensures Ink(a + b) == Ink(a) + Ink(b)
    decreases |b|
  {
    if b == [] {
      assert a + b == a;
    } else {
      InkSplits(a, b[..|b| - 1]);
      assert (a + b)[..|a + b| - 1] == a + b[..|b| - 1];
    }
  }

  lemma {:induction false} BlanksHaveNoInk(s: string)
    requires forall i :: 0 <= i < |s| ==> Blank(s[i])
    ensures Ink(s) == []
  {
    if s != [] {
      BlanksHaveNoInk(s[..|s| - 1]);
    }
  }

  lemma StrippingKeepsInk(s: string)
    ensures Ink(Rstrip(s)) == Ink(s) && Ink(Strip(s)) == Ink(s)
  {
    var l := Lstrip(s);
    LstripKeepsInk(s);
    RstripKeepsInk(s);
    RstripKeepsInk(l);
  }

  lemma RstripKeepsInk(s: string)
    ensures Ink(Rstrip(s)) == Ink(s)
  {
    var r := Rstrip(s);
    assert s == r + s[|r|..];
    InkSplits(r, s[|r|..]);
    BlanksHaveNoInk(s[|r|..]);
  }

  lemma LstripKeepsInk(s: string)
    ensures Ink(Lstrip(s)) == Ink(s)
  {
    var n := |s| - |Lstrip(s)|;
    assert s == s[..n] + Lstrip(s);
    InkSplits(s[..n], Lstrip(s));
    BlanksHaveNoInk(s[..n]);
  }

  lemma OpenedKeepsInk(l: string)
    requires Continued(l)
    ensures Ink(Opened(l)) == Ink(l)
  {
    var r := Rstrip(l);
    RstripKeepsInk(l);
    RstripKeepsInk(r[..|r| - 1]);
    assert r == r[..|r| - 1] + ['\\'];
  }

  /** Joining loses nothing but blanks and backslashes, and keeps the order. */
  lemma {:induction false} JoiningKeepsInk(lines: seq<string>)
    ensures AllInk(Joined(lines)) == AllInk(lines)
  {
    if lines != [] {
      var out, line := Joined(lines[..|lines| - 1]), lines[|lines| - 1];
      hide JoinNext, Ink;
      JoiningKeepsInk(lines[..|lines| - 1]);
      NextKeepsInk(out, line);
    }
  }

  lemma AddedInk(lines: seq<string>, line: string)
    ensures AllInk(lines + [line]) == AllInk(lines) + Ink(line)
  {
    assert (lines + [line])[..|lines|] == lines;
  }

  lemma SpacedInk(a: string, b: string)
    ensures Ink(a + [' '] + b) == Ink(a) + Ink(b)
  {
    InkSplits(a + [' '], b);
    InkSplits(a, [' ']);
    BlanksHaveNoInk([' ']);
    assert Ink(a) + [] == Ink(a);
  }

  lemma GluedInk(last: string, line: string)
    requires Continued(last)
    ensures Ink(Opened(last) + [' '] + Strip(line)) == Ink(last) + Ink(line)
  {
    hide Ink, Opened, Strip, Continued;
    OpenedKeepsInk(last);
    StrippingKeepsInk(line);
    SpacedInk(Opened(last), Strip(line));
  }

  lemma NextKeepsInk(out: seq<string>, line: string)
    ensures AllInk(JoinNext(out, line)) == AllInk(out) + Ink(line)
  {
    hide AllInk, Ink, Opened, Strip, Continued;
    if out != [] && Continued(out[|out| - 1]) {
      var rest, last := out[..|out| - 1], out[|out| - 1];
      assert out == rest + [last];
      AddedInk(rest, last);
      AddedInk(rest, Opened(last) + [' '] + Strip(line));
      GluedInk(last, line);
    } else {
      AddedInk(out, line);
    }
  }

  // ---- Insertions ------------------------------------------------------------

  /** The inserted text and what follows it, if the edits are one insertion. */
  function InsertionBetween(old_: string, new_: string, ops: seq<Op>): Option<(string, string)>
    requires forall n :: 0 <= n < |ops| ==> ops[n].i1 <= |old_| && ops[n].j1 <= ops[n].j2 <= |new_|
  {
    if |ops| != 1 || !ops[0].tag.Insert? then None
    else Some((new_[ops[0].j1..ops[0].j2], old_[ops[0].i1..]))
  }

  predicate At(s: string, part: string, i: nat) { i + |part| <= |s| && s[i..i + |part|] == part }

  /** Where the part occurs last. */
  function Rfind(s: string, part: string, from: nat): (r: Option<nat>)
    ensures r.None? ==> forall i: nat :: i <= from ==> !At(s, part, i)
    ensures r.Some? ==>
      && r.value <= from && At(s, part, r.value)
      && forall i: nat :: r.value < i <= from ==> !At(s, part, i)
  {
    if At(s, part, from) then Some(from) else if from == 0 then None else Rfind(s, part, from - 1)
  }

  function ApplyInsertion(line: string, inserted: string, suffix: string): Option<string> {
    if suffix == [] then Some(Rstrip(line) + inserted)
    else
      var i := Rfind(line, suffix, |line|);
      if i.None? then None else Some(line[..i.value] + inserted + line[i.value..])
  }

  /** Re-applying an insertion to the line it was made in gives the new line, exactly when
      something follows it or the line does not end in blanks. */
  lemma ReplayedInsertion(old_: string, new_: string, op: Op)
    requires IsDelta(old_, new_, [op]) && op.tag.Insert?
    ensures op.i1 <= |old_| && op.j1 <= op.j2 <= |new_|
    ensures var (inserted, suffix) := InsertionBetween(old_, new_, [op]).value;
            ApplyInsertion(old_, inserted, suffix) == Some(new_) <==> suffix != [] || Rstrip(old_) == old_
  {
    OneEdit(old_, new_, op);
    var inserted, suffix := new_[op.j1..op.j2], old_[op.i1..];
    if suffix == [] {
      assert new_ == old_ + inserted;
    } else {
      assert At(old_, suffix, op.i1);
      assert old_[..op.i1] + inserted + old_[op.i1..] == new_;
    }
  }

  // ---- The leading token -----------------------------------------------------

  function BeforeBlank(s: string): string {
    if s == [] || Blank(s[0]) then [] else [s[0]] + BeforeBlank(s[1..])
  }

  /** The first word before any parenthesis; nothing where the script would raise. */
  function Lead(s: string): Option<string> {
    var t := Strip(s);
    var w := Lstrip(Before(t, '('));
    if t == [] then Some([]) else if w == [] then None else Some(BeforeBlank(w))
  }

  /** A line that begins with a parenthesis, and no other, has no leading token to compare. */
  lemma LeadRaises(s: string)
    ensures Lead(s).None? <==> Strip(s) != [] && Strip(s)[0] == '('
  {
    var t := Strip(s);
    StripStrips(s);
    var p := Before(t, '(');
    var w := Lstrip(p);
    if t != [] && t[0] != '(' {
      assert p != [] && p[0] == t[0] && !Blank(p[0]);
    }
  }

  // ---- One block -------------------------------------------------------------

  /** The libraries' part: the two differences, what the regular expressions say of a text,
      and the closest line of a block. */
  datatype Tools = Tools(lines: (seq<string>, seq<string>) -> seq<Op>, chars: (string, string) -> seq<Op>,
                         ohos: string -> bool, comment: string -> bool,
                         closest: (string, seq<string>) -> Option<string>)

  /** Differences are differences; the closest line is one of the block's, and the line
      itself if it is there. */
  ghost predicate Relied(t: Tools) {
    && (forall a, b :: IsDelta(a, b, t.lines(a, b)))
    && (forall a, b :: IsDelta(a, b, t.chars(a, b)))
    && (forall l, o :: t.closest(l, o).Some? ==> t.closest(l, o).value in o)
    && (forall l, o :: l in o ==> t.closest(l, o) == Some(l))
  }

  datatype Why = ManyRegions | NotOneLine | Rewritten | NoMarker | NoMatch | OtherStart | IsComment | HasMarker
    | AnchorGone

  /** The leading token of a line that has one: what its text begins with, up to a blank or a
      parenthesis. */
  lemma LeadIsToken(s: string)
    requires Lead(s).Some? && Strip(s) != []
    ensures var w, t := Lead(s).value, Strip(s);
            && w != [] && w <= t && (forall c :: c in w ==> !Blank(c) && c != '(')
            && (|w| == |t| || Blank(t[|w|]) || t[|w|] == '(')
  {
    var t := Strip(s);
    StripStrips(s);
    var b := Before(t, '(');
    hide Strip;
    TokenOf(b);
    assert b != [] ==> b[0] == t[0];
  }

  lemma {:induction false} TokenOf(s: string)
    ensures var w := BeforeBlank(s);
            && w <= s && (forall c :: c in w ==> !Blank(c)) && (|w| == |s| || Blank(s[|w|]))
  {
    hide Blank;
    if s != [] && !Blank(s[0]) {
      TokenOf(s[1..]);
    }
  }

  datatype Verdict = Merged(lines: seq<string>) | Refused(why: Why) | Raised

  function ReplaceAll(o: seq<string>, target: string, line: string): (r: seq<string>)
    ensures |r| == |o| && forall k :: 0 <= k < |o| ==> r[k] == if o[k] == target then line else o[k]
  {
    if o == [] then [] else [if o[0] == target then line else o[0]] + ReplaceAll(o[1..], target, line)
  }

  /** Re-applies the insertion made in one line to the closest line of ours. */
  function Reapply(t: Tools, o: seq<string>, line: string, inserted: string, suffix: string): Verdict {
    var close := t.closest(line, o);
    if close.None? then Refused(NoMatch)
    else
      var target := close.value;
      if Lead(target).None? || Lead(line).None? then Raised
      else if Lead(target) != Lead(line) then Refused(OtherStart)
      else if t.comment(target) then Refused(IsComment)
      else if t.ohos(target) then Refused(HasMarker)
      else
        var merged := ApplyInsertion(target, inserted, suffix);
        if merged.None? then Refused(AnchorGone) else Merged(ReplaceAll(o, target, merged.value))
  }

  /** The block's logical lines: what the adapter did to base must be one marked insertion in
      one line. */
  function Merge(t: Tools, o: seq<string>, b: seq<string>, theirs: seq<string>): Verdict
    requires Relied(t)
  {
    var ops := t.lines(b, theirs);
    if |ops| != 1 then Refused(ManyRegions)
    else
      var op := ops[0];
      assert OpOk(b, theirs, op) by {
        assert IsDelta(b, theirs, t.lines(b, theirs));
      }
      if !op.tag.Replace? || op.i2 - op.i1 != 1 || op.j2 - op.j1 != 1 then Refused(NotOneLine)
      else
        var line, edited := b[op.i1], theirs[op.j1];
        var insertion := Between(t, line, edited);
        if insertion.None? then Refused(Rewritten)
        else if !t.ohos(insertion.value.0) then Refused(NoMarker)
        else Reapply(t, o, line, insertion.value.0, insertion.value.1)
  }

  function Between(t: Tools, line: string, edited: string): Option<(string, string)>
    requires Relied(t)
  {
    assert IsDelta(line, edited, t.chars(line, edited));
    assert forall n :: 0 <= n < |t.chars(line, edited)| ==> OpOk(line, edited, t.chars(line, edited)[n]);
    InsertionBetween(line, edited, t.chars(line, edited))
  }

  /** When the edit of base is one insertion in one line. */
  ghost predicate OneInsertion(t: Tools, b: seq<string>, theirs: seq<string>)
    requires Relied(t)
  {
    var ops := t.lines(b, theirs);
    assert IsDelta(b, theirs, ops);
    && |ops| == 1 && OpOk(b, theirs, ops[0]) && ops[0].tag.Replace?
    && ops[0].i2 == ops[0].i1 + 1 && ops[0].j2 == ops[0].j1 + 1
    && Between(t, b[ops[0].i1], theirs[ops[0].j1]).Some?
  }

  /** The text goes between two parts of the target, the second beginning with the anchor; or,
      without an anchor, behind it with the blanks at its end taken off. */
  ghost predicate Graft(target: string, suffix: string, left: string, right: string) {
    if suffix == [] then left == Rstrip(target) && right == [] else target == left + right && suffix <= right
  }

  /** The lines are ours, but that one of ours has the marked text grafted in, wherever it
      stands: a line that is no comment, is not marked yet, and starts like the edited one. */
  ghost predicate Grafted(t: Tools, o: seq<string>, line: string, inserted: string, suffix: string,
                          lines: seq<string>)
  {
    exists target, left, right ::
      && target in o && Graft(target, suffix, left, right) && lines == ReplaceAll(o, target, left + inserted + right)
      && t.ohos(inserted) && !t.ohos(target) && !t.comment(target) && Lead(target) == Lead(line)
  }

  /** A block is merged only if the adapter's edit is one marked insertion in one line, and
      then nothing of ours changes but that insertion. */
  lemma MergedIsGrafted(t: Tools, o: seq<string>, b: seq<string>, theirs: seq<string>)
    requires Relied(t) && Merge(t, o, b, theirs).Merged?
    ensures OneInsertion(t, b, theirs)
    ensures var op := t.lines(b, theirs)[0];
            var (inserted, suffix) := Between(t, b[op.i1], theirs[op.j1]).value;
            Grafted(t, o, b[op.i1], inserted, suffix, Merge(t, o, b, theirs).lines)
  {
    var ops := t.lines(b, theirs);
    assert IsDelta(b, theirs, ops) && OpOk(b, theirs, ops[0]);
    assert OneInsertion(t, b, theirs) by {
      hide Reapply;
    }
    MergeOne(t, o, b, theirs);
    var line := b[ops[0].i1];
    var (inserted, suffix) := Between(t, line, theirs[ops[0].j1]).value;
    hide Merge, OneInsertion, Between, IsDelta;
    ReapplyGrafts(t, o, line, inserted, suffix);
  }

  lemma ReapplyGrafts(t: Tools, o: seq<string>, line: string, inserted: string, suffix: string)
    requires Relied(t) && t.ohos(inserted) && Reapply(t, o, line, inserted, suffix).Merged?
    ensures Grafted(t, o, line, inserted, suffix, Reapply(t, o, line, inserted, suffix).lines)
  {
    hide Lead, ReplaceAll;
    var target := t.closest(line, o).value;
    assert target in o;
    var k := Rfind(target, suffix, |target|);
    var left := if suffix == [] then Rstrip(target) else target[..k.value];
    var right := if suffix == [] then [] else target[k.value..];
    assert suffix == [] ==> left + inserted + right == left + inserted;
    assert Graft(target, suffix, left, right);
  }

  /** The text goes before the last place of its anchor; without one, behind the line with the
      blanks at its end taken off. */
  ghost predicate Applied(target: string, inserted: string, suffix: string, merged: string) {
    if suffix == [] then merged == Rstrip(target) + inserted
    else exists i: nat :: At(target, suffix, i) && (forall j: nat :: i < j ==> !At(target, suffix, j))
                          && merged == target[..i] + inserted + target[i..]
  }

  /** The whole decision: a block is merged exactly if the adapter's edit is one marked
      insertion in one line, some line of ours is close to that line, begins with the same
      token, is no comment and not marked yet, and has the text's anchor. It fails by an
      exception exactly if it gets as far as comparing tokens and there is none to take. */
  lemma MergedExactly(t: Tools, o: seq<string>, b: seq<string>, theirs: seq<string>)
    requires Relied(t)
    ensures !OneInsertion(t, b, theirs) ==> Merge(t, o, b, theirs).Refused?
    ensures OneInsertion(t, b, theirs) ==>
      var op := t.lines(b, theirs)[0];
      var (inserted, suffix) := Between(t, b[op.i1], theirs[op.j1]).value;
      var v, close := Merge(t, o, b, theirs), t.closest(b[op.i1], o);
      && (v.Raised? <==> t.ohos(inserted) && close.Some?
                         && (Lead(close.value).None? || Lead(b[op.i1]).None?))
      && (v.Merged? <==>
            && t.ohos(inserted) && close.Some? && Lead(close.value).Some? && Lead(close.value) == Lead(b[op.i1])
            && !t.comment(close.value) && !t.ohos(close.value)
            && exists merged :: Applied(close.value, inserted, suffix, merged))
      && (v.Merged? ==>
            exists merged :: Applied(close.value, inserted, suffix, merged)
                             && v.lines == ReplaceAll(o, close.value, merged))
  {
    var ops := t.lines(b, theirs);
    assert IsDelta(b, theirs, ops) && (|ops| == 1 ==> OpOk(b, theirs, ops[0]));
    if OneInsertion(t, b, theirs) {
      MergeOne(t, o, b, theirs);
      var line := b[ops[0].i1];
      var (inserted, suffix) := Between(t, line, theirs[ops[0].j1]).value;
      hide Merge, OneInsertion, Between, IsDelta;
      ReappliedExactly(t, o, line, inserted, suffix);
    } else {
      hide Reapply, IsDelta;
    }
  }

  lemma AppliedIs(target: string, inserted: string, suffix: string)
    ensures var a := ApplyInsertion(target, inserted, suffix);
            && (a.Some? <==> exists merged :: Applied(target, inserted, suffix, merged))
            && (a.Some? ==> Applied(target, inserted, suffix, a.value))
  {
    if suffix == [] {
      assert Applied(target, inserted, suffix, Rstrip(target) + inserted);
    } else {
      var i := Rfind(target, suffix, |target|);
      if i.Some? {
        assert Applied(target, inserted, suffix, target[..i.value] + inserted + target[i.value..]);
      }
    }
  }

  lemma ReappliedExactly(t: Tools, o: seq<string>, line: string, inserted: string, suffix: string)
    ensures var v, close := Reapply(t, o, line, inserted, suffix), t.closest(line, o);
            && (v.Raised? <==> close.Some? && (Lead(close.value).None? || Lead(line).None?))
            && (v.Merged? <==>
                  && close.Some? && Lead(close.value).Some? && Lead(close.value) == Lead(line)
                  && !t.comment(close.value) && !t.ohos(close.value)
                  && exists merged :: Applied(close.value, inserted, suffix, merged))
            && (v.Merged? ==>
                  exists merged :: Applied(close.value, inserted, suffix, merged)
                                   && v.lines == ReplaceAll(o, close.value, merged))
  {
    hide Lead, ReplaceAll, Applied, ApplyInsertion;
    if t.closest(line, o).Some? {
      AppliedIs(t.closest(line, o).value, inserted, suffix);
    }
  }

  method MergeBlock(t: Tools, ours: seq<string>, base: seq<string>, theirs: seq<string>) returns (v: Verdict)
    requires Relied(t)
    ensures v == Merge(t, Joined(ours), Joined(base), Joined(theirs))
    ensures v.Merged? ==> OneInsertion(t, Joined(base), Joined(theirs)) && |v.lines| == |Joined(ours)|
  {
    var o := JoinContinuations(ours);
    var b := JoinContinuations(base);
    var x := JoinContinuations(theirs);
    v := Merge(t, o, b, x);
    if v.Merged? {
      MergedIsGrafted(t, o, b, x);
      hide Merge;
    }
  }

  // ---- Unchanged upstream ----------------------------------------------------

  lemma InsertedLine(t: Tools, line: string, edited: string)
    requires Relied(t) && Between(t, line, edited).Some?
    ensures var (inserted, suffix) := Between(t, line, edited).value;
            var merged := ApplyInsertion(line, inserted, suffix);
            && merged.Some? && edited != line
            && (merged.value == edited <==> suffix != [] || Rstrip(line) == line)
  {
    var ops := t.chars(line, edited);
    assert IsDelta(line, edited, ops) && ops == [ops[0]];
    ReplayedInsertion(line, edited, ops[0]);
    OneEdit(line, edited, ops[0]);
    assert |edited| > |line|;
  }

  /** If upstream has not changed the block: what is accepted, and when accepting gives the
      adapter's version. It does not when the edited line stands in the block twice, for then
      every copy is edited, or when the text went after blanks at the end of the line. */
  lemma UnchangedUpstream(t: Tools, b: seq<string>, theirs: seq<string>)
    requires Relied(t) && OneInsertion(t, b, theirs)
    ensures var op := t.lines(b, theirs)[0];
            var line := b[op.i1];
            var (inserted, suffix) := Between(t, line, theirs[op.j1]).value;
            var v := Merge(t, b, b, theirs);
            && (v.Merged? <==> t.ohos(inserted) && Lead(line).Some? && !t.comment(line) && !t.ohos(line))
            && (v.Merged? ==>
                (v.lines == theirs <==>
                 (forall k :: 0 <= k < |b| && k != op.i1 ==> b[k] != line) && (suffix != [] || Rstrip(line) == line)))
  {
    var op := t.lines(b, theirs)[0];
    var line, edited := b[op.i1], theirs[op.j1];
    OneLineEdited(t, b, theirs);
    InsertedLine(t, line, edited);
    var (inserted, suffix) := Between(t, line, edited).value;
    ReapplyHere(t, b, line, inserted, suffix);
    MergeOne(t, b, b, theirs);
    hide Relied, OneInsertion, Between, ApplyInsertion, Lead, Rstrip, ReplaceAll, Reapply, Merge;
    EditedBlock(b, theirs, op.i1, line, edited, ApplyInsertion(line, inserted, suffix).value);
  }

  lemma MergeOne(t: Tools, o: seq<string>, b: seq<string>, theirs: seq<string>)
    requires Relied(t) && OneInsertion(t, b, theirs)
    ensures var op := t.lines(b, theirs)[0];
            var (inserted, suffix) := Between(t, b[op.i1], theirs[op.j1]).value;
            Merge(t, o, b, theirs)
            == if t.ohos(inserted) then Reapply(t, o, b[op.i1], inserted, suffix) else Refused(NoMarker)
  {
    hide Reapply, Between;
  }

  lemma OneLineEdited(t: Tools, b: seq<string>, theirs: seq<string>)
    requires Relied(t) && OneInsertion(t, b, theirs)
    ensures var i := t.lines(b, theirs)[0].i1;
            && t.lines(b, theirs)[0].j1 == i < |b| == |theirs|
            && forall k :: 0 <= k < |b| && k != i ==> theirs[k] == b[k]
  {
    var ops := t.lines(b, theirs);
    assert IsDelta(b, theirs, ops) && ops == [ops[0]];
    hide IsDelta, Relied, Between;
    OneEdit(b, theirs, ops[0]);
    var i := ops[0].i1;
    assert theirs[i..i + 1] == [theirs[i]];
    var r := b[..i] + [theirs[i]] + b[i + 1..];
    assert theirs == r;
    assert forall k :: 0 <= k < |b| && k != i ==> r[k] == b[k];
  }

  lemma ReapplyHere(t: Tools, b: seq<string>, line: string, inserted: string, suffix: string)
    requires Relied(t) && line in b && ApplyInsertion(line, inserted, suffix).Some?
    ensures var v := Reapply(t, b, line, inserted, suffix);
            && (v.Merged? <==> Lead(line).Some? && !t.comment(line) && !t.ohos(line))
            && (v.Merged? ==> v.lines == ReplaceAll(b, line, ApplyInsertion(line, inserted, suffix).value))
  {
    hide ApplyInsertion, Lead, ReplaceAll;
    assert t.closest(line, b) == Some(line);
  }

  lemma EditedBlock(b: seq<string>, theirs: seq<string>, i: nat, line: string, edited: string, merged: string)
    requires i < |b| == |theirs| && b[i] == line && theirs[i] == edited && edited != line
    requires forall k :: 0 <= k < |b| && k != i ==> theirs[k] == b[k]
    ensures ReplaceAll(b, line, merged) == theirs
        <==> (forall k :: 0 <= k < |b| && k != i ==> b[k] != line) && merged == edited
  {
    hide ReplaceAll;
    var r := ReplaceAll(b, line, merged);
    assert r[i] == merged;
    if r == theirs {
      forall k | 0 <= k < |b| && k != i ensures b[k] != line {
        assert r[k] == theirs[k] == b[k];
      }
    }
  }
}
