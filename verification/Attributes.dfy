/** The attribute strings of the glue generator
    (overlay/arkweb/glue/scripts/file_parser.py): comma-separated names, each bare or with a
    value, and names given several times. */
module Attributes {
  import opened Blanks
  import opened Options

  datatype Value = Bare | Text(text: string)

  datatype Pair = Pair(name: string, value: Value)

  datatype Attribute = One(value: Value) | Many(values: seq<Value>)

  datatype Entry = Entry(name: string, attribute: Attribute)

  /** A dictionary, in the order in which its names were first given. */
  type Dict = seq<Entry>

  // ---- Parsing -----------------------------------------------------------------

  /** What one part between commas says: nothing if it is blank, and an error if it has two
      equals signs. */
  datatype Part = Skip | Given(pair: Pair) | Invalid

  function Read(part: string): Part {
    var p := Strip(part);
    var s := Split(p, '=');
    if p == [] then Skip
    else if |s| > 2 then Invalid
    else Given(Pair(Strip(s[0]), if |s| == 2 then Text(Strip(s[1])) else Bare))
  }

  function Find(d: Dict, name: string): (i: nat)
    ensures i <= |d| && (i < |d| ==> d[i].name == name) && forall k :: 0 <= k < i ==> d[k].name != name
  {
    if d == [] || d[0].name == name then 0 else 1 + Find(d[1..], name)
  }

  function Values(a: Attribute): seq<Value> { if a.One? then [a.value] else a.values }

  /** A name given again turns its value into a list. */
  function Add(d: Dict, p: Pair): Dict {
    var i := Find(d, p.name);
    if i == |d| then d + [Entry(p.name, One(p.value))]
    else d[i := Entry(p.name, Many(Values(d[i].attribute) + [p.value]))]
  }

  ghost function AddAll(d: Dict, ps: seq<Pair>): Dict {
    if ps == [] then d else Add(AddAll(d, ps[..|ps| - 1]), ps[|ps| - 1])
  }

  /** The pairs that the parts give, if none is invalid. */
  ghost function Pairs(parts: seq<string>): Option<seq<Pair>> {
    if parts == [] then Some([])
    else
      var before, last := Pairs(parts[..|parts| - 1]), Read(parts[|parts| - 1]);
      if before.None? || last.Invalid? then None
      else if last.Skip? then before
      else Some(before.value + [last.pair])
  }

  /** The places, in order, of the parts that give a pair, and the pairs they give. */
  ghost predicate GivenAt(parts: seq<string>, at: seq<nat>, ps: seq<Pair>) {
    && |at| == |ps|
    && (forall k, l :: 0 <= k < l < |at| ==> at[k] < at[l])
    && (forall k :: 0 <= k < |at| ==> at[k] < |parts| && Read(parts[at[k]]) == Given(ps[k]))
    && forall i: nat :: i < |parts| && Read(parts[i]).Given? ==> i in at
  }

  /** The pairs are those of the parts that give one, in order. */
  lemma {:induction false} PairsAreGiven(parts: seq<string>) returns (at: seq<nat>)
    requires Pairs(parts).Some?
    ensures GivenAt(parts, at, Pairs(parts).value)
  {
    hide Read, GivenAt;
    if parts == [] {
      at := NoneGiven();
    } else {
      var rest, last := parts[..|parts| - 1], parts[|parts| - 1];
      at := PairsAreGiven(rest);
      GivenNext(rest, at, Pairs(rest).value, last);
      assert parts == rest + [last];
      if Read(last).Given? {
        at := at + [|rest|];
      }
    }
  }

  lemma NoneGiven() returns (at: seq<nat>)
    ensures GivenAt([], at, [])
  {
    at := [];
  }

  lemma GivenNext(parts: seq<string>, at: seq<nat>, ps: seq<Pair>, part: string)
    requires GivenAt(parts, at, ps)
    ensures var now := parts + [part];
            if Read(part).Given? then GivenAt(now, at + [|parts|], ps + [Read(part).pair]) else GivenAt(now, at, ps)
  {
    hide Read;
    var now := parts + [part];
    assert now[|parts|] == part && forall i :: 0 <= i < |parts| ==> now[i] == parts[i];
    assert (at + [|parts|])[|at|] == |parts|;
    forall i: nat | i < |now| && Read(now[i]).Given? ensures i in at + [|parts|] {
      assert i < |parts| ==> i in at;
    }
  }

  ghost function Parsed(s: string): Option<Dict> {
    var ps := Pairs(Split(s, ','));
    if ps.None? then None else Some(AddAll([], ps.value))
  }

  lemma {:induction false} InvalidStays(parts: seq<string>, n: nat)
    requires n <= |parts| && Pairs(parts[..n]).None?
    ensures Pairs(parts).None?
    decreases |parts|
  {
    if n == |parts| {
      assert parts[..n] == parts;
    } else {
      assert parts[..|parts| - 1][..n] == parts[..n];
      InvalidStays(parts[..|parts| - 1], n);
    }
  }

  /** A part with two equals signs or more. */
  predicate TwoSigns(part: string) { |Split(Strip(part), '=')| > 2 }

  lemma {:induction false} PairsFail(parts: seq<string>)
    ensures Pairs(parts).None? <==> exists part :: part in parts && TwoSigns(part)
  {
    hide Read, TwoSigns;
    if parts != [] {
      var rest, last := parts[..|parts| - 1], parts[|parts| - 1];
      PairsFail(rest);
      InvalidIs(last);
      assert parts == rest + [last];
    }
  }

  lemma InvalidIs(part: string)
    ensures Read(part).Invalid? <==> TwoSigns(part)
  {
    hide Strip;
    NothingToSplit(Strip(part));
  }

  lemma NothingToSplit(p: string)
    ensures p == [] ==> |Split(p, '=')| <= 2
  {
  }

  /** Fails exactly on a part with two equals signs. */
  method StrToDict(s: string) returns (r: Option<Dict>)
    ensures r == Parsed(s)
    ensures r.None? <==> exists part :: part in Split(s, ',') && TwoSigns(part)
  {
    PairsFail(Split(s, ','));
    hide Read, Add, Split, TwoSigns;
    var parts := Split(s, ',');
    var d: Dict := [];
    ghost var ps: seq<Pair> := [];
    for n := 0 to |parts|
      invariant Pairs(parts[..n]) == Some(ps) && d == AddAll([], ps)
    {
      assert parts[..n + 1][..n] == parts[..n];
      var part := Read(parts[n]);
      if part.Invalid? {
        InvalidStays(parts, n + 1);
        return None;
      }
      if part.Given? {
        d := Add(d, part.pair);
        assert (ps + [part.pair])[..|ps|] == ps;
        ps := ps + [part.pair];
      }
    }
    assert parts[..|parts|] == parts;
    return Some(d);
  }

  /** What a part says, whatever blanks stand around: nothing if it is blank; its text as a
      bare name if it has no equals sign; and with one, the texts before and behind it. */
  lemma PartSays(a: string, b: string)
    requires '=' !in a && '=' !in b
    ensures Read(a) == if Strip(a) == [] then Skip else Given(Pair(Strip(a), Bare))
    ensures Read(a + "=" + b) == Given(Pair(Strip(a), Text(Strip(b))))
  {
    BareRead(a);
    PairRead(a, b);
  }

  lemma BareRead(a: string)
    requires '=' !in a
    ensures Read(a) == if Strip(a) == [] then Skip else Given(Pair(Strip(a), Bare))
  {
    hide Strip;
    StripIsPart(a, '=');
    StripStrips(a);
    StripStrips(Strip(a));
    NoSplit(Strip(a), '=');
  }

  lemma NoSplit(s: string, c: char)
    requires c !in s
    ensures Split(s, c) == [s]
  {
    BeforeFirst(s, c, []);
  }

  lemma PairRead(a: string, b: string)
    requires '=' !in a && '=' !in b
    ensures Read(a + "=" + b) == Given(Pair(Strip(a), Text(Strip(b))))
  {
    var l, r := Lstrip(a), Rstrip(b);
    assert a + "=" + b == a + ['='] + b;
    StripAround(a, b);
    InnerStrip(a, b);
    hide Strip;
    OneSign(l, r);
    assert |l + ['='] + r| > 0;
  }

  lemma OneSign(l: string, r: string)
    requires '=' !in l && '=' !in r
    ensures Split(l + ['='] + r, '=') == [l, r]
  {
    BeforeFirst(l, '=', r);
    NoSplit(r, '=');
    assert (l + ['='] + r)[|l| + 1..] == r;
  }

  lemma StripAround(a: string, b: string)
    ensures Strip(a + ['='] + b) == Lstrip(a) + ['='] + Rstrip(b)
  {
    hide Blank, Lstrip, Rstrip, Strip;
    var s, l, r := a + ['='] + b, Lstrip(a), Rstrip(b);
    var lo, hi := |a| - |l|, |a| + 1 + |r|;
    SignIsInk();
    assert s[|a|] == '=';
    forall i | 0 <= i < lo ensures Blank(s[i]) {
      assert s[i] == a[i];
    }
    forall i | hi <= i < |s| ensures Blank(s[i]) {
      assert s[i] == b[i - |a| - 1];
    }
    assert !Blank(s[lo]) by {
      if l != [] {
        assert s[lo] == a[lo] == l[0];
      }
    }
    assert !Blank(s[hi - 1]) by {
      if r != [] {
        assert s[hi - 1] == b[|r| - 1] == r[|r| - 1];
      }
    }
    StripIs(s, lo, hi);
    MiddleOf(a, b, lo, |r|);
  }

  lemma SignIsInk()
    ensures !Blank('=')
  {
  }

  lemma MiddleOf(a: string, b: string, lo: nat, k: nat)
    requires lo <= |a| && k <= |b|
    ensures (a + ['='] + b)[lo..|a| + 1 + k] == a[lo..] + ['='] + b[..k]
  {
  }

  lemma InnerStrip(a: string, b: string)
    ensures Strip(Lstrip(a)) == Strip(a) && Strip(Rstrip(b)) == Strip(b)
  {
    hide Blank, Lstrip, Rstrip;
    LstripIs(Lstrip(a), 0);
    EndStripped(b);
  }

  lemma EndStripped(b: string)
    ensures Strip(Rstrip(b)) == Strip(b)
  {
    hide Blank, Lstrip, Rstrip, Strip;
    var lo, r := |b| - |Lstrip(b)|, Rstrip(b);
    if lo == |b| {
      BlankStrips(b);
      BlankStrips([]);
    } else {
      assert !Blank(b[lo]) by {
        assert Lstrip(b)[0] == b[lo];
      }
      assert lo < |r| && r[lo] == b[lo] && r[|r| - 1] == b[|r| - 1];
      forall i | 0 <= i < lo ensures Blank(r[i]) {
        assert r[i] == b[i];
      }
      StripIs(b, lo, |r|);
      StripIs(r, lo, |r|);
      assert r[lo..|r|] == b[lo..|r|];
    }
  }

  // ---- Printing ----------------------------------------------------------------

  function Printed1(p: Pair): string { if p.value.Bare? then p.name else p.name + ['='] + p.value.text }

  ghost function PairsOf(name: string, values: seq<Value>): seq<Pair> {
    if values == [] then [] else PairsOf(name, values[..|values| - 1]) + [Pair(name, values[|values| - 1])]
  }

  /** The pairs of a dictionary, name by name. */
  ghost function Flat(d: Dict): seq<Pair> {
    if d == [] then [] else Flat(d[..|d| - 1]) + PairsOf(d[|d| - 1].name, Values(d[|d| - 1].attribute))
  }

  ghost function Texts(ps: seq<Pair>): seq<string> {
    if ps == [] then [] else Texts(ps[..|ps| - 1]) + [Printed1(ps[|ps| - 1])]
  }

  /** No list holds a bare value: such a list cannot be printed. */
  ghost predicate Printable(d: Dict) {
    forall i :: 0 <= i < |d| && d[i].attribute.Many? ==> Bare !in d[i].attribute.values
  }

  lemma {:induction false} TextsSum(a: seq<Pair>, b: seq<Pair>)
    ensures Texts(a + b) == Texts(a) + Texts(b)
    decreases |b|
  {
    hide Printed1;
    if b == [] {
      assert a + b == a;
    } else {
      TextsSum(a, b[..|b| - 1]);
      assert (a + b)[..|a + b| - 1] == a + b[..|b| - 1];
    }
  }

  /** Appends a list's values, each with the name; adding a bare value to a string fails. */
  method PrintList(name: string, values: seq<Value>, before: seq<string>) returns (r: Option<seq<string>>)
    ensures r.Some? <==> Bare !in values
    ensures r.Some? ==> r.value == before + Texts(PairsOf(name, values))
  {
    hide Printed1;
    var parts := before;
    for k := 0 to |values|
      invariant parts == before + Texts(PairsOf(name, values[..k])) && Bare !in values[..k]
    {
      if values[k].Bare? {
        assert Bare in values;
        return None;
      }
      NextValue(name, values, k);
      assert values[..k + 1] == values[..k] + [values[k]];
      parts := parts + [Printed1(Pair(name, values[k]))];
    }
    assert values[..|values|] == values;
    return Some(parts);
  }

  lemma NextValue(name: string, values: seq<Value>, k: nat)
    requires k < |values|
    ensures Texts(PairsOf(name, values[..k + 1]))
         == Texts(PairsOf(name, values[..k])) + [Printed1(Pair(name, values[k]))]
  {
    assert values[..k + 1][..k] == values[..k];
    var a, b := PairsOf(name, values[..k]), PairsOf(name, values[..k + 1]);
    assert b == a + [Pair(name, values[k])] && b[..|a|] == a;
  }

  lemma NextEntry(d: Dict, n: nat)
    requires n < |d|
    ensures Texts(Flat(d[..n + 1])) == Texts(Flat(d[..n])) + Texts(PairsOf(d[n].name, Values(d[n].attribute)))
  {
    hide Texts, PairsOf, Values;
    assert d[..n + 1][..n] == d[..n];
    TextsSum(Flat(d[..n]), PairsOf(d[n].name, Values(d[n].attribute)));
  }

  lemma OneText(p: Pair)
    ensures Texts(PairsOf(p.name, [p.value])) == [Printed1(p)]
  {
    hide Printed1;
    assert PairsOf(p.name, [p.value]) == [Pair(p.name, p.value)];
  }

  method DictToStr(d: Dict) returns (r: Option<string>)
    ensures r == if Printable(d) then Some(Join(Texts(Flat(d)), ',')) else None
  {
    hide Join, Printed1, Texts, Flat, PairsOf;
    var parts := [];
    assert d[..0] == [];
    NoText();
    for n := 0 to |d|
      invariant parts == Texts(Flat(d[..n]))
      invariant forall i :: 0 <= i < n && d[i].attribute.Many? ==> Bare !in d[i].attribute.values
    {
      NextEntry(d, n);
      var e := d[n];
      if e.attribute.One? {
        OneText(Pair(e.name, e.attribute.value));
        parts := parts + [Printed1(Pair(e.name, e.attribute.value))];
      } else {
        var more := PrintList(e.name, e.attribute.values, parts);
        if more.None? {
          return None;
        }
        parts := more.value;
      }
    }
    assert d[..|d|] == d;
    return Some(Join(parts, ','));
  }

  lemma NoText()
    ensures Texts(Flat([])) == []
  {
  }

  // ---- Reading back what was printed -----------------------------------------------

  predicate Free(s: string) { ',' !in s && '=' !in s && Stripped(s) }

  /** Such a pair survives printing and reading. */
  predicate Clean(p: Pair) {
    Free(p.name) && match p.value case Bare => p.name != [] case Text(t) => Free(t)
  }

  lemma StripIsPart(s: string, c: char)
    requires c !in s
    ensures c !in Strip(s)
  {
  }

  lemma StrippedIsFree(s: string)
    requires ',' !in s && '=' !in s
    ensures Free(Strip(s))
  {
    StripIsPart(s, ',');
    StripIsPart(s, '=');
    StripStrips(s);
  }

  lemma ReadIsClean(part: string)
    requires ',' !in part && Read(part).Given?
    ensures Clean(Read(part).pair)
  {
    hide Strip, Split, Stripped, Free;
    var p := Strip(part);
    StripIsPart(part, ',');
    StripStrips(part);
    StripStrips(p);
    WholePart(p, '=');
    PartsOfSplit(p, '=', ',');
    var s := Split(p, '=');
    assert s[0] in s;
    StrippedIsFree(s[0]);
    if |s| == 2 {
      assert s[1] in s;
      StrippedIsFree(s[1]);
    }
  }

  lemma WholePart(p: string, c: char)
    ensures |Split(p, c)| == 1 ==> Split(p, c) == [p]
  {
  }

  lemma {:induction false} PartsOfSplit(p: string, c: char, x: char)
    requires x !in p
    ensures forall q :: q in Split(p, c) ==> x !in q
    decreases |p|
  {
    var b := Before(p, c);
    if b != p {
      PartsOfSplit(p[|b| + 1..], c, x);
    }
  }

  lemma SplitTwo(a: string, b: string, c: char)
    requires c !in a && c !in b
    ensures Split(a + [c] + b, c) == [a, b] && Split(a, c) == [a]
  {
    SplitJoin([a], c);
    SplitJoin([a, b], c);
    assert Join([a, b][1..], c) == b;
  }

  lemma StrippedSum(a: string, b: string)
    requires Stripped(a) && Stripped(b)
    ensures Stripped(a + ['='] + b)
  {
    var s := a + ['='] + b;
    assert s[0] == if a == [] then '=' else a[0];
    assert s[|s| - 1] == if b == [] then '=' else b[|b| - 1];
  }

  lemma PrintedReads(p: Pair)
    requires Clean(p)
    ensures Read(Printed1(p)) == Given(p) && ',' !in Printed1(p)
  {
    hide Strip, Split, Stripped;
    StripStrips(Printed1(p));
    StripStrips(p.name);
    match p.value
    case Bare => SplitTwo(p.name, [], '=');
    case Text(t) =>
      SplitTwo(p.name, t, '=');
      StrippedSum(p.name, t);
      StripStrips(t);
  }

  ghost predicate AllClean(ps: seq<Pair>) { forall i :: 0 <= i < |ps| ==> Clean(ps[i]) }

  lemma {:induction false} PairsAreClean(parts: seq<string>)
    requires forall i :: 0 <= i < |parts| ==> ',' !in parts[i]
    ensures Pairs(parts).Some? ==> AllClean(Pairs(parts).value)
  {
    hide Read, Clean;
    if parts != [] {
      PairsAreClean(parts[..|parts| - 1]);
      if Read(parts[|parts| - 1]).Given? {
        ReadIsClean(parts[|parts| - 1]);
      }
    }
  }

  lemma {:induction false} TextsReadBack(ps: seq<Pair>)
    requires AllClean(ps)
    ensures Pairs(Texts(ps)) == Some(ps) && |Texts(ps)| == |ps|
    ensures forall t :: t in Texts(ps) ==> ',' !in t
  {
    hide Read, Clean, Printed1;
    if ps != [] {
      TextsReadBack(ps[..|ps| - 1]);
      PrintedReads(ps[|ps| - 1]);
      var ts := Texts(ps);
      assert ts[..|ts| - 1] == Texts(ps[..|ps| - 1]);
      assert ps == ps[..|ps| - 1] + [ps[|ps| - 1]];
    }
  }

  // ---- Dictionaries ----------------------------------------------------------------

  /** Names of their own, lists of at least two values, and nothing that does not survive. */
  ghost predicate EntryOk(e: Entry) {
    && (e.attribute.Many? ==> |e.attribute.values| >= 2)
    && forall v :: v in Values(e.attribute) ==> Clean(Pair(e.name, v))
  }

  ghost predicate DictOk(d: Dict) {
    && (forall i :: 0 <= i < |d| ==> EntryOk(d[i]))
    && forall i, j :: 0 <= i < j < |d| ==> d[i].name != d[j].name
  }

  lemma AddOk(d: Dict, p: Pair)
    requires DictOk(d) && Clean(p)
    ensures DictOk(Add(d, p))
  {
    hide Clean;
    var i := Find(d, p.name);
    if i < |d| {
      assert EntryOk(d[i]);
    }
  }

  lemma {:induction false} AddAllOk(ps: seq<Pair>)
    requires AllClean(ps)
    ensures DictOk(AddAll([], ps))
  {
    if ps != [] {
      AddAllOk(ps[..|ps| - 1]);
      AddOk(AddAll([], ps[..|ps| - 1]), ps[|ps| - 1]);
    }
  }

  lemma {:induction false} AddAllSum(d: Dict, a: seq<Pair>, b: seq<Pair>)
    ensures AddAll(d, a + b) == AddAll(AddAll(d, a), b)
    decreases |b|
  {
    hide Add;
    if b == [] {
      assert a + b == a;
    } else {
      AddAllSum(d, a, b[..|b| - 1]);
      assert (a + b)[..|a + b| - 1] == a + b[..|b| - 1];
    }
  }

  ghost function AsAttribute(values: seq<Value>): Attribute
    requires values != []
  {
    if |values| == 1 then One(values[0]) else Many(values)
  }

  lemma AddToLast(d: Dict, name: string, values: seq<Value>, v: Value)
    requires values != [] && forall i :: 0 <= i < |d| ==> d[i].name != name
    ensures Add(d + [Entry(name, AsAttribute(values))], Pair(name, v)) == d + [Entry(name, AsAttribute(values + [v]))]
  {
    var e := d + [Entry(name, AsAttribute(values))];
    assert e[|d|].name == name;
    assert forall k :: 0 <= k < |d| ==> e[k] == d[k];
    assert Find(e, name) == |d|;
    assert Values(AsAttribute(values)) == values;
    assert e[|d| := Entry(name, Many(values + [v]))] == d + [Entry(name, Many(values + [v]))];
  }

  lemma AddFirst(d: Dict, name: string, v: Value)
    requires forall i :: 0 <= i < |d| ==> d[i].name != name
    ensures Add(d, Pair(name, v)) == d + [Entry(name, One(v))]
  {
  }

  lemma AddsLast(d: Dict, name: string, values: seq<Value>)
    requires values != []
    ensures var before, v := values[..|values| - 1], values[|values| - 1];
            && AddAll(d, PairsOf(name, values)) == Add(AddAll(d, PairsOf(name, before)), Pair(name, v))
            && (before == [] ==> AddAll(d, PairsOf(name, before)) == d)
  {
    hide Add;
    var ps := PairsOf(name, values);
    assert ps[..|ps| - 1] == PairsOf(name, values[..|values| - 1]);
  }

  lemma {:induction false} OneNameRegroups(d: Dict, name: string, values: seq<Value>)
    requires values != [] && forall i :: 0 <= i < |d| ==> d[i].name != name
    ensures AddAll(d, PairsOf(name, values)) == d + [Entry(name, AsAttribute(values))]
    decreases |values|
  {
    hide Add, AddAll, PairsOf;
    var before, v := values[..|values| - 1], values[|values| - 1];
    AddsLast(d, name, values);
    if before == [] {
      assert values == [v] && AsAttribute(values) == One(v);
      AddFirst(d, name, v);
    } else {
      hide AsAttribute;
      OneNameRegroups(d, name, before);
      AddToLast(d, name, before, v);
      assert before + [v] == values;
    }
  }

  lemma AllButLast(d: Dict)
    requires DictOk(d) && d != []
    ensures var rest, e := d[..|d| - 1], d[|d| - 1];
            && DictOk(rest) && EntryOk(e) && Flat(d) == Flat(rest) + PairsOf(e.name, Values(e.attribute))
            && forall i :: 0 <= i < |rest| ==> rest[i].name != e.name
  {
    hide EntryOk, PairsOf, Values;
  }

  /** Adding a dictionary's pairs, name by name, builds the same dictionary. */
  lemma {:induction false} Regroups(d: Dict)
    requires DictOk(d)
    ensures AddAll([], Flat(d)) == d
    decreases |d|
  {
    hide DictOk, Add, PairsOf;
    if d == [] {
      assert AddAll([], []) == [];
    } else {
      RegroupsLast(d);
      Regroups(d[..|d| - 1]);
      assert d == d[..|d| - 1] + [d[|d| - 1]];
    }
  }

  lemma RegroupsLast(d: Dict)
    requires DictOk(d) && d != []
    ensures DictOk(d[..|d| - 1])
    ensures AddAll([], Flat(d[..|d| - 1])) == d[..|d| - 1] ==> AddAll([], Flat(d)) == d[..|d| - 1] + [d[|d| - 1]]
  {
    hide AddAll, PairsOf, EntryOk, Values, AsAttribute, DictOk, Flat;
    var rest, e := d[..|d| - 1], d[|d| - 1];
    AllButLast(d);
    SameAttribute(e);
    AddAllSum([], Flat(rest), PairsOf(e.name, Values(e.attribute)));
    OneNameRegroups(rest, e.name, Values(e.attribute));
  }

  lemma SameAttribute(e: Entry)
    requires EntryOk(e)
    ensures Values(e.attribute) != [] && AsAttribute(Values(e.attribute)) == e.attribute
  {
  }

  lemma {:induction false} PairsOfClean(name: string, values: seq<Value>)
    requires forall v :: v in values ==> Clean(Pair(name, v))
    ensures AllClean(PairsOf(name, values))
  {
    hide Clean;
    if values != [] {
      PairsOfClean(name, values[..|values| - 1]);
    }
  }

  lemma {:induction false} FlatIsClean(d: Dict)
    requires DictOk(d)
    ensures AllClean(Flat(d)) && (d != [] ==> Flat(d) != [])
  {
    if d != [] {
      var e := d[|d| - 1];
      FlatIsClean(d[..|d| - 1]);
      assert EntryOk(e);
      PairsOfClean(e.name, Values(e.attribute));
    }
  }

  /** What a printable dictionary prints as parses to that dictionary. */
  lemma PrintedParses(d: Dict)
    requires DictOk(d)
    ensures Parsed(Join(Texts(Flat(d)), ',')) == Some(d)
  {
    var ps := Flat(d);
    FlatIsClean(d);
    TextsReadBack(ps);
    Regroups(d);
    hide Pairs, Flat, AddAll, DictOk;
    if ps == [] {
      assert Split([], ',') == [[]];
      NothingGiven();
    } else {
      SplitJoin(Texts(ps), ',');
    }
  }

  lemma NothingGiven()
    ensures Pairs([[]]) == Some([])
  {
    var parts: seq<string> := [[]];
    assert parts[..0] == [];
    StripStrips([]);
    assert Read([]) == Skip;
  }

  lemma ParsedIsOk(s: string)
    requires Parsed(s).Some?
    ensures DictOk(Parsed(s).value)
  {
    PairsAreClean(Split(s, ','));
    AddAllOk(Pairs(Split(s, ',')).value);
  }

  // ---- What a dictionary holds -----------------------------------------------------

  /** The values given to a name, in order. */
  ghost function Named(ps: seq<Pair>, name: string): seq<Value> {
    if ps == [] then []
    else
      var p := ps[|ps| - 1];
      Named(ps[..|ps| - 1], name) + (if p.name == name then [p.value] else [])
  }

  ghost function Held(d: Dict, name: string): seq<Value> {
    var i := Find(d, name);
    if i == |d| then [] else Values(d[i].attribute)
  }

  lemma HeldAfter(d: Dict, p: Pair, name: string)
    ensures Held(Add(d, p), name) == Held(d, name) + (if p.name == name then [p.value] else [])
  {
    var i, t := Find(d, p.name), Add(d, p);
    var j, k := Find(d, name), Find(t, name);
    assert forall n :: 0 <= n < |d| ==> t[n].name == d[n].name;
    assert i == |d| ==> t[|d|].name == p.name;
    assert j < |d| ==> k == j;
  }

  /** The dictionary holds for each name exactly the values given to it, in order. */
  lemma {:induction false} HoldsWhatWasGiven(ps: seq<Pair>, name: string)
    ensures Held(AddAll([], ps), name) == Named(ps, name)
  {
    if ps != [] {
      HoldsWhatWasGiven(ps[..|ps| - 1], name);
      HeldAfter(AddAll([], ps[..|ps| - 1]), ps[|ps| - 1], name);
    }
  }

  /** The names in the order in which they were first given. */
  ghost function FirstNames(ps: seq<Pair>): seq<string> {
    if ps == [] then []
    else
      var before, name := FirstNames(ps[..|ps| - 1]), ps[|ps| - 1].name;
      if name in before then before else before + [name]
  }

  ghost predicate InOrder(d: Dict, names: seq<string>) {
    |names| == |d| && forall i :: 0 <= i < |d| ==> d[i].name == names[i]
  }

  lemma NamesAfter(d: Dict, p: Pair, names: seq<string>)
    requires InOrder(d, names)
    ensures InOrder(Add(d, p), if p.name in names then names else names + [p.name])
  {
    var i := Find(d, p.name);
    if i < |d| {
      assert names[i] == p.name;
    }
  }

  lemma {:induction false} NamesInOrder(ps: seq<Pair>)
    ensures InOrder(AddAll([], ps), FirstNames(ps))
  {
    if ps != [] {
      NamesInOrder(ps[..|ps| - 1]);
      NamesAfter(AddAll([], ps[..|ps| - 1]), ps[|ps| - 1], FirstNames(ps[..|ps| - 1]));
    }
  }

  /** The names that were given at least twice, and at least once without a value. */
  ghost predicate BareAndRepeated(ps: seq<Pair>, name: string) {
    |Named(ps, name)| >= 2 && Bare in Named(ps, name)
  }

  ghost predicate NoneBareAndRepeated(ps: seq<Pair>) { forall name :: !BareAndRepeated(ps, name) }

  lemma ListIsRepeated(d: Dict, i: nat)
    requires DictOk(d) && i < |d|
    ensures Held(d, d[i].name) == Values(d[i].attribute)
    ensures d[i].attribute.Many? <==> |Held(d, d[i].name)| >= 2
  {
    var k := Find(d, d[i].name);
    assert d[k].name == d[i].name;
    assert EntryOk(d[i]);
  }

  lemma PrintableIff(ps: seq<Pair>)
    requires AllClean(ps)
    ensures Printable(AddAll([], ps)) <==> NoneBareAndRepeated(ps)
  {
    var d := AddAll([], ps);
    AddAllOk(ps);
    hide DictOk, AddAll, Held, Named;
    forall i | 0 <= i < |d|
      ensures d[i].attribute.Many? && Bare in d[i].attribute.values <==> BareAndRepeated(ps, d[i].name)
    {
      ListIsRepeated(d, i);
      HoldsWhatWasGiven(ps, d[i].name);
    }
    forall name | BareAndRepeated(ps, name) ensures exists i :: 0 <= i < |d| && d[i].name == name {
      HoldsWhatWasGiven(ps, name);
      HeldIsThere(d, name);
    }
  }

  lemma HeldIsThere(d: Dict, name: string)
    requires Held(d, name) != []
    ensures exists i :: 0 <= i < |d| && d[i].name == name
  {
    assert d[Find(d, name)].name == name;
  }

  /** The round trip: a string that parses can be printed again exactly when no name was both
      repeated and bare, and what is printed parses to the same dictionary. */
  lemma RoundTrip(s: string)
    requires Parsed(s).Some?
    ensures var d := Parsed(s).value;
            && (Printable(d) <==> NoneBareAndRepeated(Pairs(Split(s, ',')).value))
            && (Printable(d) ==> Parsed(Join(Texts(Flat(d)), ',')) == Some(d))
  {
    hide AllClean, Pairs, AddAll, Printable, NoneBareAndRepeated, Join, Texts, Flat, DictOk;
    PairsAreClean(Split(s, ','));
    PrintableIff(Pairs(Split(s, ',')).value);
    ParsedIsOk(s);
    PrintedParses(Parsed(s).value);
  }
}
