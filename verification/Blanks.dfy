/** Stripping and splitting strings, as Python's str methods do. */
module Blanks {
  /** What str.isspace() is true of. */
  predicate Blank(c: char) {
    var n := c as int;
    || 9 <= n <= 13 || 28 <= n <= 32 || n == 0x85 || n == 0xa0 || n == 0x1680 || 0x2000 <= n <= 0x200a
    || n == 0x2028 || n == 0x2029 || n == 0x202f || n == 0x205f || n == 0x3000
  }

  function Rstrip(s: string): (r: string)
    ensures r <= s && (r == s || (|r| < |s| && Blank(s[|r|])))
    ensures r != [] ==> !Blank(r[|r| - 1])
    ensures forall i :: |r| <= i < |s| ==> Blank(s[i])
  {
    if s != [] && Blank(s[|s| - 1]) then Rstrip(s[..|s| - 1]) else s
  }

  function Lstrip(s: string): (r: string)
    ensures |r| <= |s| && r == s[|s| - |r|..]
    ensures r != [] ==> !Blank(r[0])
    ensures forall i :: 0 <= i < |s| - |r| ==> Blank(s[i])
  {
    if s != [] && Blank(s[0]) then Lstrip(s[1..]) else s
  }

  function Strip(s: string): string { Rstrip(Lstrip(s)) }

  predicate Stripped(s: string) { s == [] || (!Blank(s[0]) && !Blank(s[|s| - 1])) }

  lemma StripStrips(s: string)
    ensures Stripped(Strip(s))
    ensures Stripped(s) ==> Strip(s) == s
  {
    var l := Lstrip(s);
    var r := Rstrip(l);
    assert r != [] ==> r[0] == l[0];
    if Stripped(s) && s != [] {
      assert l == s;
    }
  }

  lemma LstripIs(s: string, k: nat)
    requires k <= |s| && (forall i :: 0 <= i < k ==> Blank(s[i])) && (k < |s| ==> !Blank(s[k]))
    ensures Lstrip(s) == s[k..]
  {
    hide Blank, Lstrip;
    var r := Lstrip(s);
    var j := |s| - |r|;
    assert j < |s| ==> r[0] == s[j] && !Blank(s[j]);
    assert j == k;
  }

  lemma RstripIs(s: string, k: nat)
    requires k <= |s| && (forall i :: k <= i < |s| ==> Blank(s[i])) && (k > 0 ==> !Blank(s[k - 1]))
    ensures Rstrip(s) == s[..k]
  {
    hide Blank, Rstrip;
    var j := |Rstrip(s)|;
    assert j > 0 ==> Rstrip(s)[j - 1] == s[j - 1] && !Blank(s[j - 1]);
    assert j == k;
  }

  /** Stripping takes off what is blank on both sides. */
  lemma StripIs(s: string, lo: nat, hi: nat)
    requires lo < hi <= |s| && !Blank(s[lo]) && !Blank(s[hi - 1])
    requires (forall i :: 0 <= i < lo ==> Blank(s[i])) && forall i :: hi <= i < |s| ==> Blank(s[i])
    ensures Strip(s) == s[lo..hi]
  {
    hide Blank, Lstrip, Rstrip;
    LstripIs(s, lo);
    var l := s[lo..];
    assert l[hi - lo - 1] == s[hi - 1];
    forall i | hi - lo <= i < |l| ensures Blank(l[i]) {
      assert l[i] == s[lo + i];
    }
    RstripIs(l, hi - lo);
    SliceOfSlice(s, lo, hi);
  }

  lemma SliceOfSlice(s: string, lo: nat, hi: nat)
    requires lo <= hi <= |s|
    ensures s[lo..][..hi - lo] == s[lo..hi]
  {
  }

  lemma BlankStrips(s: string)
    requires forall i :: 0 <= i < |s| ==> Blank(s[i])
    ensures Strip(s) == [] && Lstrip(s) == [] && Rstrip(s) == []
  {
    hide Blank, Lstrip, Rstrip;
    LstripIs(s, |s|);
    RstripIs(s, 0);
    LstripIs([], 0);
    RstripIs([], 0);
  }

  /** What precedes the first c, or everything. */
  function Before(s: string, c: char): (r: string)
    ensures r <= s && c !in r && (r == s || (|r| < |s| && s[|r|] == c))
  {
    if s == [] || s[0] == c then [] else [s[0]] + Before(s[1..], c)
  }

  /** Splitting at every c: one part more than there are of it. */
  function Split(s: string, c: char): (parts: seq<string>)
    ensures parts != [] && forall p :: p in parts ==> c !in p
    decreases |s|
  {
    var b := Before(s, c);
    if b == s then [s] else [b] + Split(s[|b| + 1..], c)
  }

  function Join(parts: seq<string>, c: char): string {
    if parts == [] then [] else if |parts| == 1 then parts[0] else parts[0] + [c] + Join(parts[1..], c)
  }

  /** What was split, joined again, is what it was. */
  lemma {:induction false} JoinSplit(s: string, c: char)
    ensures Join(Split(s, c), c) == s
    decreases |s|
  {
    hide Before, Join;
    var b := Before(s, c);
    if b == s {
      JoinOne(s, c);
    } else {
      var rest := s[|b| + 1..];
      JoinSplit(rest, c);
      JoinMore(b, Split(rest, c), c);
      assert s == b + [c] + rest;
    }
  }

  lemma JoinOne(s: string, c: char)
    ensures Join([s], c) == s
  {
  }

  lemma JoinMore(s: string, parts: seq<string>, c: char)
    requires parts != []
    ensures Join([s] + parts, c) == s + [c] + Join(parts, c)
  {
    assert ([s] + parts)[1..] == parts;
  }

  lemma BeforeFirst(a: string, c: char, rest: string)
    requires c !in a
    ensures Before(a + [c] + rest, c) == a && Before(a, c) == a
  {
    var s := a + [c] + rest;
    var b := Before(s, c);
    assert s[|a|] == c && forall i :: 0 <= i < |a| ==> s[i] == a[i];
    assert b <= s && (forall i :: 0 <= i < |b| ==> s[i] != c);
    assert b == s[..|a|];
  }

  lemma {:induction false} SplitJoin(parts: seq<string>, c: char)
    requires parts != [] && forall p :: p in parts ==> c !in p
    ensures Split(Join(parts, c), c) == parts
    decreases |parts|
  {
    var a := parts[0];
    if |parts| == 1 {
      BeforeFirst(a, c, []);
    } else {
      var rest := Join(parts[1..], c);
      SplitJoin(parts[1..], c);
      BeforeFirst(a, c, rest);
      assert (a + [c] + rest)[|a| + 1..] == rest;
    }
  }
}
