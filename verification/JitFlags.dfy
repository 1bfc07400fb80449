/** Whether the V8 flags ask for no JIT (overlay/base/process/ohos_jit_startup.h). */
module JitFlags {
  import opened Options

  predicate Separator(c: char)
  {
    c == ' ' || c == ',' || c == '\t' || c == '\r' || c == '\n'
  }

  /** What one flag says about JIT, if anything. */
  function Meaning(flag: string): Option<bool> {
    if flag == "--jitless" || flag == "--jitless=true" || flag == "--jitless=1" then Some(true)
    else if flag == "--nojitless" || flag == "--no-jitless" || flag == "--jitless=false" || flag == "--jitless=0"
      then Some(false)
    else None
  }

  /** The flags that ask for no JIT, those that ask for it, and what stands between flags. */
  lemma Spellings(flag: string, c: char)
    ensures Meaning(flag) == Some(true) <==> flag in {"--jitless", "--jitless=true", "--jitless=1"}
    ensures Meaning(flag) == Some(false)
        <==> flag in {"--nojitless", "--no-jitless", "--jitless=false", "--jitless=0"}
    ensures Separator(c) <==> c in " ,\t\r\n"
  {
  }

  /** The length of what precedes the first separator. */
  function WordLength(s: string): (k: nat)
    ensures k <= |s| && (k < |s| ==> Separator(s[k])) && forall i :: 0 <= i < k ==> !Separator(s[i])
  {
    if s == [] || Separator(s[0]) then 0 else 1 + WordLength(s[1..])
  }

  // ---- The simple form -----------------------------------------------------------

  /** Splitting at every separator. */
  ghost function Words(s: string): seq<string>
    decreases |s|
  {
    var k := WordLength(s);
    if k == |s| then [s] else [s[..k]] + Words(s[k + 1..])
  }

  /** What the last flag that means anything means. */
  ghost function Last(words: seq<string>): Option<bool> {
    if words == [] then None
    else
      var later := Last(words[1..]);
      if later.Some? then later else Meaning(words[0])
  }

  /** The last recognised of these flags wins; without one, the default stands. */
  ghost function By(default_: bool, words: seq<string>): bool {
    var l := Last(words);
    if l.Some? then l.value else default_
  }

  ghost function Decided(default_: bool, s: string): bool {
    By(default_, Words(s))
  }

  lemma {:induction false} LastIsLast(words: seq<string>, b: bool)
    ensures Last(words) == Some(b)
        <==> exists i :: 0 <= i < |words| && Meaning(words[i]) == Some(b) && NoneAfter(words, i)
  {
    hide Meaning;
    if words != [] {
      var rest := words[1..];
      LastIsLast(rest, true);
      LastIsLast(rest, false);
      NoneLast(rest);
      if i :| 0 <= i < |rest| && Meaning(rest[i]) == Some(b) && NoneAfter(rest, i) {
        assert Meaning(words[i + 1]) == Some(b) && NoneAfter(words, i + 1);
      }
      if i :| 0 <= i < |words| && Meaning(words[i]) == Some(b) && NoneAfter(words, i) {
        if i > 0 {
          assert Meaning(rest[i - 1]) == Some(b);
          assert forall j :: i - 1 < j < |rest| ==> rest[j] == words[j + 1];
          assert NoneAfter(rest, i - 1);
        } else {
          assert forall j :: 0 <= j < |rest| ==> rest[j] == words[j + 1];
        }
      }
      if Last(rest).None? && Meaning(words[0]) == Some(b) {
        assert NoneAfter(words, 0);
      }
    }
  }

  ghost predicate NoneAfter(words: seq<string>, i: int) {
    forall j :: i < j < |words| && j >= 0 ==> Meaning(words[j]).None?
  }

  lemma {:induction false} NoneLast(words: seq<string>)
    ensures Last(words).None? <==> forall j :: 0 <= j < |words| ==> Meaning(words[j]).None?
  {
    hide Meaning;
    if words != [] {
      NoneLast(words[1..]);
    }
  }

  lemma {:induction false} LastOfSum(a: seq<string>, b: seq<string>)
    ensures Last(a + b) == if Last(b).Some? then Last(b) else Last(a)
  {
    hide Meaning;
    if a == [] {
      assert a + b == b;
    } else {
      LastOfSum(a[1..], b);
      assert (a + b)[1..] == a[1..] + b;
    }
  }

  lemma FirstWord(s: string)
    ensures var k := WordLength(s); Words(s) == if k == |s| then [s] else [s[..k]] + Words(s[k + 1..])
  {
    hide WordLength, Separator;
  }

  lemma {:induction false} WordsOfSum(a: string, c: char, b: string)
    requires Separator(c)
    ensures Words(a + [c] + b) == Words(a) + Words(b)
    decreases |a|
  {
    hide Separator, Words, WordLength;
    var k := WordLength(a);
    SameWord(a, c, b);
    SumSlices(a, c, b, k);
    FirstWord(a);
    FirstWord(a + [c] + b);
    if k < |a| {
      WordsOfSum(a[k + 1..], c, b);
      Associate([a[..k]], Words(a[k + 1..]), Words(b));
    } else {
      assert a[..k] == a;
    }
  }

  lemma Associate(a: seq<string>, b: seq<string>, c: seq<string>)
    ensures a + (b + c) == a + b + c
  {
  }

  lemma SumSlices(a: string, c: char, b: string, k: nat)
    requires k <= |a|
    ensures var s := a + [c] + b;
            s[..k] == a[..k] && s[k + 1..] == if k == |a| then b else a[k + 1..] + [c] + b
  {
  }

  lemma SameWord(a: string, c: char, b: string)
    requires Separator(c)
    ensures WordLength(a + [c] + b) == WordLength(a)
  {
    var s := a + [c] + b;
    assert forall i :: 0 <= i < |a| ==> s[i] == a[i];
    assert s[|a|] == c;
  }

  /** Scanning two flag strings one after the other: the second decides if it says anything,
      and otherwise the first. */
  lemma LaterFlagsWin(a: string, c: char, b: string)
    requires Separator(c)
    ensures Decided(false, a + [c] + b) == if Last(Words(b)).Some? then Decided(false, b) else Decided(false, a)
  {
    hide Words, Last;
    WordsOfSum(a, c, b);
    LastOfSum(Words(a), Words(b));
  }

  // ---- The scanner ---------------------------------------------------------------

  lemma ByFirst(b: bool, w: string, words: seq<string>)
    ensures By(b, [w] + words) == By(if Meaning(w).Some? then Meaning(w).value else b, words)
  {
    hide Meaning;
    assert ([w] + words)[1..] == words;
  }

  lemma SkipSeparator(b: bool, s: string)
    requires s != [] && Separator(s[0])
    ensures Words(s) == [[]] + Words(s[1..]) && Decided(b, s) == Decided(b, s[1..])
  {
    hide Words, By;
    FirstWord(s);
    assert WordLength(s) == 0 && s[..0] == [];
    ByFirst(b, [], Words(s[1..]));
  }

  lemma TakeWord(b: bool, s: string)
    ensures var k := WordLength(s);
            var m := Meaning(s[..k]);
            var now := if m.Some? then m.value else b;
            Decided(b, s) == if k == |s| then now else Decided(now, s[k..])
  {
    hide Meaning, Words, Decided, WordLength, Separator;
    var k := WordLength(s);
    var w := s[..k];
    var now := if Meaning(w).Some? then Meaning(w).value else b;
    FirstWord(s);
    if k < |s| {
      var rest, tail := s[k..], s[k + 1..];
      assert rest[0] == s[k] && rest[1..] == tail;
      DecidedFirst(b, s, w, tail);
      SkipSeparator(now, rest);
    } else {
      assert w == s;
      DecidedOnly(b, s);
    }
  }

  lemma DecidedFirst(b: bool, s: string, w: string, tail: string)
    requires Words(s) == [w] + Words(tail)
    ensures Decided(b, s) == Decided(if Meaning(w).Some? then Meaning(w).value else b, tail)
  {
    hide Words, Meaning, By;
    ByFirst(b, w, Words(tail));
  }

  lemma DecidedOnly(b: bool, s: string)
    requires Words(s) == [s]
    ensures Decided(b, s) == if Meaning(s).Some? then Meaning(s).value else b
  {
    hide Words, Meaning;
    assert [s] + [] == [s];
    ByFirst(b, s, []);
    assert Last([]) == None;
  }

  method JitlessRequested(flags: string) returns (disabled: bool)
    ensures disabled == Decided(false, flags)
  {
    hide Decided, Meaning;
    disabled := false;
    var view := flags;
    NothingDecides();
    while view != []
      invariant Decided(false, flags) == Decided(disabled, view)
      decreases |view|
    {
      while view != [] && Separator(view[0])
        invariant Decided(false, flags) == Decided(disabled, view)
        decreases |view|
      {
        SkipSeparator(disabled, view);
        view := view[1..];
      }
      if view == [] {
        break;
      }
      var end := WordLength(view);
      TakeWord(disabled, view);
      var m := Meaning(view[..end]);
      if m.Some? {
        disabled := m.value;
      }
      if end == |view| {
        return;
      }
      view := view[end..];
    }
  }

  lemma NothingDecides()
    ensures forall b :: Decided(b, []) == b
  {
    assert Words([]) == [[]] && Words([])[1..] == [];
    assert Meaning([]) == None;
  }
}
