/** Searching an accessibility snapshot
    (overlay/components/ohos_accessibility/accessibility_provider_ohos.cc): a graph of nodes
    by id, in which children lists may be cyclic and may name ids that are not there. */
module AccessibilityTree {
  import opened Options

  /** The fields the searches and actions look at. */
  datatype Node = Node(id: int, parent: int, children: seq<int>, name: string, value: string,
                       enabled: bool, visible: bool, focusable: bool, focused: bool, editable: bool,
                       password: bool, clickable: bool, scrollable: bool)

  datatype Snapshot = Snapshot(owner: nat, root: int, order: seq<int>, nodes: map<int, Node>)

  /** The id -1 stands for the root. */
  function Key(s: Snapshot, id: int): int { if id == -1 then s.root else id }

  function GetNode(s: Snapshot, id: int): (n: Option<Node>)
    ensures id == -1 && s.root in s.nodes ==> n == Some(s.nodes[s.root])
    ensures id != -1 && id in s.nodes ==> n == Some(s.nodes[id])
    ensures n.None? <==> (if id == -1 then s.root else id) !in s.nodes
  {
    if Key(s, id) in s.nodes then Some(s.nodes[Key(s, id)]) else None
  }

  predicate WellKeyed(s: Snapshot) {
    forall k :: k in s.nodes ==> s.nodes[k].id == k
  }

  function Children(s: Snapshot, id: int): seq<int> {
    var n := GetNode(s, id);
    if n.Some? then n.value.children else []
  }

  // ---- Reachability ----------------------------------------------------------

  ghost predicate Chain(s: Snapshot, p: seq<int>) {
    forall i :: 0 <= i < |p| - 1 ==> p[i + 1] in Children(s, p[i])
  }

  /** A chain from one of the starts to x that touches none of the blocked ids. */
  ghost predicate Route(s: Snapshot, starts: seq<int>, blocked: set<int>, p: seq<int>, x: int) {
    && p != [] && p[0] in starts && p[|p| - 1] == x && Chain(s, p)
    && forall i :: 0 <= i < |p| ==> p[i] !in blocked
  }

  ghost predicate Reaches(s: Snapshot, starts: seq<int>, blocked: set<int>, x: int) {
    exists p :: Route(s, starts, blocked, p, x)
  }

  /** x is in the subtree of a: a itself or anything reachable through children lists. */
  ghost predicate InSubtree(s: Snapshot, a: int, x: int) {
    exists p :: Path(s, a, x, p)
  }

  ghost predicate Path(s: Snapshot, a: int, x: int, p: seq<int>) {
    p != [] && p[0] == a && p[|p| - 1] == x && Chain(s, p)
  }

  lemma StartReaches(s: Snapshot, starts: seq<int>, blocked: set<int>, x: int)
    requires x in starts && x !in blocked
    ensures Reaches(s, starts, blocked, x)
  {
    assert Route(s, starts, blocked, [x], x);
  }

  lemma StepReaches(s: Snapshot, starts: seq<int>, blocked: set<int>, x: int, y: int)
    requires Reaches(s, starts, blocked, x) && y in Children(s, x) && y !in blocked
    ensures Reaches(s, starts, blocked, y)
  {
    var p :| Route(s, starts, blocked, p, x);
    var q := p + [y];
    forall i | 0 <= i < |q| - 1 ensures q[i + 1] in Children(s, q[i]) {
      if i < |p| - 1 {
        assert p[i + 1] in Children(s, p[i]);
      }
    }
    assert Route(s, starts, blocked, q, y);
  }

  /** A set that holds the starts and with every id its children contains the whole route. */
  lemma {:induction false} ClosedHoldsRoute(s: Snapshot, starts: seq<int>, blocked: set<int>, p: seq<int>, x: int,
                                            ids: set<int>)
    requires Route(s, starts, blocked, p, x)
    requires forall c :: c in starts ==> c in ids
    requires forall y, c :: y in ids && y !in blocked && c in Children(s, y) ==> c in ids
    ensures x in ids
    decreases |p|
  {
    if |p| > 1 {
      var q := p[..|p| - 1];
      var y := q[|q| - 1];
      assert Chain(s, q) by {
        forall i | 0 <= i < |q| - 1 ensures q[i + 1] in Children(s, q[i]) {
          assert p[i + 1] in Children(s, p[i]);
        }
      }
      assert Route(s, starts, blocked, q, y);
      ClosedHoldsRoute(s, starts, blocked, q, y, ids);
      assert p[|p| - 2 + 1] in Children(s, p[|p| - 2]);
    }
  }

  // ---- The worklist ----------------------------------------------------------

  /** Every id in a children list: what the worklist can ever hold. */
  ghost function Mentioned(s: Snapshot, node: Node): set<int> {
    (set c | c in node.children) + (set k, c | k in s.nodes && c in s.nodes[k].children :: c)
  }

  ghost predicate Belongs(s: Snapshot, node: Node, ids: set<int>, recursive: bool, x: int) {
    if recursive then Reaches(s, node.children, ids, x) else x in node.children
  }

  /** The loop invariant: everything added or waiting belongs, and nothing that belongs is
      forgotten. */
  ghost predicate Sweeping(s: Snapshot, node: Node, ids: set<int>, recursive: bool, all: set<int>, waiting: set<int>) {
    && ids <= all
    && waiting <= Mentioned(s, node)
    && (forall c :: c in node.children ==> c in all || c in waiting)
    && (forall x :: x in all || x in waiting ==> x in ids || Belongs(s, node, ids, recursive, x))
    && (recursive ==> forall y :: y in all && y !in ids ==> Elements(Children(s, y)) <= all + waiting)
  }

  lemma SweepStarts(s: Snapshot, node: Node, ids: set<int>, recursive: bool)
    ensures Sweeping(s, node, ids, recursive, ids, Elements(node.children))
  {
    forall c | c in node.children && c !in ids ensures Belongs(s, node, ids, recursive, c) {
      StartReaches(s, node.children, ids, c);
    }
  }

  lemma SweepSkips(s: Snapshot, node: Node, ids: set<int>, recursive: bool, all: set<int>, waiting: set<int>,
                   child: int)
    requires Sweeping(s, node, ids, recursive, all, waiting + {child}) && child in all
    ensures Sweeping(s, node, ids, recursive, all, waiting)
  {
    hide Belongs, Mentioned;
  }

  lemma SweepAdds(s: Snapshot, node: Node, ids: set<int>, recursive: bool, all: set<int>, waiting: set<int>, child: int)
    requires Sweeping(s, node, ids, recursive, all, waiting + {child}) && child !in all
    ensures Sweeping(s, node, ids, recursive, all + {child},
                     if recursive then waiting + Elements(Children(s, child)) else waiting)
  {
    hide Mentioned;
    ChildrenMentioned(s, node, child);
    if recursive {
      hide Belongs;
      forall c | c in Children(s, child) ensures c in ids || Belongs(s, node, ids, recursive, c) {
        ChildBelongs(s, node, ids, child, c);
      }
      hide Children;
    }
  }

  lemma ChildrenMentioned(s: Snapshot, node: Node, child: int)
    ensures Elements(Children(s, child)) <= Mentioned(s, node)
  {
    forall c | c in Children(s, child) ensures c in Mentioned(s, node) {
      var k := Key(s, child);
      assert k in s.nodes && c in s.nodes[k].children;
    }
  }

  lemma ChildBelongs(s: Snapshot, node: Node, ids: set<int>, child: int, c: int)
    requires Belongs(s, node, ids, true, child) && c in Children(s, child)
    ensures c in ids || Belongs(s, node, ids, true, c)
  {
    if c !in ids {
      StepReaches(s, node.children, ids, child, c);
    }
  }

  lemma SweepEnds(s: Snapshot, node: Node, ids: set<int>, recursive: bool, all: set<int>, waiting: set<int>)
    requires Sweeping(s, node, ids, recursive, all, waiting) && waiting == {}
    ensures forall x :: x in all <==> x in ids || Belongs(s, node, ids, recursive, x)
  {
    if recursive {
      forall x | Reaches(s, node.children, ids, x) ensures x in all {
        var p :| Route(s, node.children, ids, p, x);
        ClosedHoldsRoute(s, node.children, ids, p, x, all);
      }
    }
  }

  lemma Shrinks(s: Snapshot, node: Node, ids: set<int>, recursive: bool, all: set<int>, waiting: set<int>, child: int)
    requires Sweeping(s, node, ids, recursive, all, waiting + {child}) && child !in all
    ensures |Mentioned(s, node) - (all + {child})| < |Mentioned(s, node) - all|
  {
    var universe := Mentioned(s, node);
    assert child in waiting + {child};
    hide Mentioned;
    assert universe - all == (universe - (all + {child})) + {child};
  }

  lemma ElementsOfSum(a: seq<int>, b: seq<int>, c: int)
    ensures Elements<int>([]) == {}
    ensures Elements(a + b) == Elements(a) + Elements(b) && Elements(a + [c]) == Elements(a) + {c}
  {
  }

  /** Adds the children of a node, and with `recursive` everything their children lists lead
      to; an id that is in the set already is not looked into. */
  method AddDescendants(s: Snapshot, node: Node, ids: set<int>, recursive: bool) returns (all: set<int>)
    ensures !recursive ==> forall x :: x in all <==> x in ids || x in node.children
    ensures recursive ==> forall x :: x in all <==> x in ids || Reaches(s, node.children, ids, x)
  {
    hide Sweeping, Mentioned, Reaches, Elements;
    all := ids;
    var pending := node.children;
    SweepStarts(s, node, ids, recursive);
    ElementsOfSum([], [], 0);
    while pending != []
      invariant Sweeping(s, node, ids, recursive, all, Elements(pending))
      decreases |Mentioned(s, node) - all|, |pending|
    {
      var child := pending[|pending| - 1];
      assert pending == pending[..|pending| - 1] + [child];
      pending := pending[..|pending| - 1];
      ElementsOfSum(pending, Children(s, child), child);
      if child in all {
        SweepSkips(s, node, ids, recursive, all, Elements(pending), child);
      } else {
        SweepAdds(s, node, ids, recursive, all, Elements(pending), child);
        Shrinks(s, node, ids, recursive, all, Elements(pending), child);
        all := all + {child};
        if recursive {
          var descendant := GetNode(s, child);
          if descendant.Some? {
            pending := pending + descendant.value.children;
          } else {
            assert pending + [] == pending;
          }
        }
      }
    }
    SweepEnds(s, node, ids, recursive, all, Elements(pending));
  }

  // ---- Subtrees --------------------------------------------------------------

  /** The worklist started from one node, with that node blocked, finds its whole subtree:
      a route through the node can start at its last visit there. */
  lemma SubtreeIsReached(s: Snapshot, node: Node, x: int)
    requires Children(s, node.id) == node.children
    ensures InSubtree(s, node.id, x) <==> x == node.id || Reaches(s, node.children, {node.id}, x)
  {
    var a := node.id;
    if InSubtree(s, a, x) && x != a {
      var p :| Path(s, a, x, p);
      LastVisit(s, node, p, x);
    }
    if x == a {
      assert Path(s, a, x, [a]);
    } else if Reaches(s, node.children, {a}, x) {
      var p :| Route(s, node.children, {a}, p, x);
      var q := [a] + p;
      forall i | 0 <= i < |q| - 1 ensures q[i + 1] in Children(s, q[i]) {
        if i > 0 {
          assert p[i - 1 + 1] in Children(s, p[i - 1]);
        }
      }
      assert Path(s, a, x, q);
    }
  }

  lemma {:induction false} LastVisit(s: Snapshot, node: Node, p: seq<int>, x: int)
    requires Children(s, node.id) == node.children && Path(s, node.id, x, p) && x != node.id
    ensures Reaches(s, node.children, {node.id}, x)
    decreases |p|
  {
    var a := node.id;
    if k :| 0 < k < |p| && p[k] == a {
      var q := p[k..];
      forall i | 0 <= i < |q| - 1 ensures q[i + 1] in Children(s, q[i]) {
        assert p[k + i + 1] in Children(s, p[k + i]);
      }
      LastVisit(s, node, q, x);
    } else {
      var q := p[1..];
      assert p[0 + 1] in Children(s, p[0]);
      forall i | 0 <= i < |q| - 1 ensures q[i + 1] in Children(s, q[i]) {
        assert p[i + 1 + 1] in Children(s, p[i + 1]);
      }
      assert Route(s, node.children, {a}, q, x);
    }
  }

  /** The set of ids a search below a node visits. */
  ghost predicate Visited(s: Snapshot, node: Node, ids: set<int>) {
    forall x :: x in ids <==> x == node.id || Reaches(s, node.children, {node.id}, x)
  }

  lemma KeyedById(s: Snapshot, id: int)
    requires WellKeyed(s) && GetNode(s, id).Some?
    ensures GetNode(s, GetNode(s, id).value.id) == GetNode(s, id)
  {
  }

  /** With nodes keyed by their ids, a search from an id visits exactly its subtree. */
  lemma VisitsTheSubtree(s: Snapshot, id: int, ids: set<int>)
    requires WellKeyed(s) && GetNode(s, id).Some? && Visited(s, GetNode(s, id).value, ids)
    ensures forall x :: x in ids <==> InSubtree(s, GetNode(s, id).value.id, x)
  {
    var node := GetNode(s, id).value;
    KeyedById(s, id);
    forall x ensures x in ids <==> InSubtree(s, node.id, x) {
      SubtreeIsReached(s, node, x);
    }
  }

  // ---- Searches by text and focus ---------------------------------------------

  predicate OccursAt(text: string, part: string, i: nat) {
    i + |part| <= |text| && text[i..i + |part|] == part
  }

  predicate Contains(text: string, part: string) {
    exists i :: 0 <= i <= |text| && OccursAt(text, part, i)
  }

  predicate Mentions(n: Node, text: string) {
    Contains(n.name, text) || (!n.password && Contains(n.value, text))
  }

  /** The nodes at these ids that mention the text, in order. */
  ghost function Hits(s: Snapshot, ids: seq<int>, text: string): seq<Node> {
    if ids == [] then []
    else
      var n := GetNode(s, ids[|ids| - 1]);
      Hits(s, ids[..|ids| - 1], text) + (if n.Some? && Mentions(n.value, text) then [n.value] else [])
  }

  /** The part stands in the text, character by character, from its i-th on. */
  ghost predicate Spelt(text: string, part: string, i: nat) {
    i + |part| <= |text| && forall k :: 0 <= k < |part| ==> text[i + k] == part[k]
  }

  lemma ContainsIsSpelt(text: string, part: string)
    ensures Contains(text, part) <==> exists i: nat :: Spelt(text, part, i)
  {
    if i :| 0 <= i <= |text| && OccursAt(text, part, i) {
      forall k | 0 <= k < |part| ensures text[i + k] == part[k] {
        assert text[i..i + |part|][k] == text[i + k];
      }
      assert Spelt(text, part, i);
    }
    if i: nat :| Spelt(text, part, i) {
      assert text[i..i + |part|] == part;
      assert OccursAt(text, part, i);
    }
  }

  /** There is a node at x with the text in its name, or in its value if that is no password. */
  ghost predicate Shows(s: Snapshot, x: int, text: string) {
    && GetNode(s, x).Some?
    && var n := GetNode(s, x).value;
       || (exists i: nat :: Spelt(n.name, text, i))
       || (!n.password && exists i: nat :: Spelt(n.value, text, i))
  }

  lemma MentionsShows(s: Snapshot, x: int, text: string)
    ensures Shows(s, x, text) <==> GetNode(s, x).Some? && Mentions(GetNode(s, x).value, text)
  {
    if GetNode(s, x).Some? {
      ContainsIsSpelt(GetNode(s, x).value.name, text);
      ContainsIsSpelt(GetNode(s, x).value.value, text);
    }
  }

  /** The nodes at these ids, each id once, in ascending order. */
  ghost predicate Lists(s: Snapshot, r: seq<Node>, ids: set<int>) {
    exists at :: Enumerates(at, ids) && At(s, r, at)
  }

  ghost predicate At(s: Snapshot, r: seq<Node>, at: seq<int>) {
    |r| == |at| && forall k :: 0 <= k < |at| ==> GetNode(s, at[k]) == Some(r[k])
  }

  lemma OneListed(s: Snapshot, r: seq<Node>, ids: set<int>, x: int, n: Node)
    requires Lists(s, r, ids) && GetNode(s, x) == Some(n) && forall y :: y in ids ==> y < x
    ensures Lists(s, r + [n], ids + {x})
  {
    var at :| Enumerates(at, ids) && At(s, r, at);
    Appended(at, ids, x);
    hide Enumerates, GetNode;
    assert At(s, r + [n], at + [x]);
  }

  lemma Appended(at: seq<int>, ids: set<int>, x: int)
    requires Enumerates(at, ids) && forall y :: y in ids ==> y < x
    ensures Enumerates(at + [x], ids + {x})
  {
    var now := at + [x];
    assert now[|at|] == x;
    forall y | y in ids ensures exists i :: 0 <= i < |now| && now[i] == y {
      var i :| 0 <= i < |at| && at[i] == y;
      assert now[i] == y;
    }
  }

  lemma {:induction false} HitsAreListed(s: Snapshot, order: seq<int>, text: string)
    requires forall i, j :: 0 <= i < j < |order| ==> order[i] < order[j]
    ensures Lists(s, Hits(s, order, text), set x | x in order && Shows(s, x, text))
  {
    hide Mentions, GetNode, Lists, Shows;
    if order == [] {
      NothingListed(s, set x | x in order && Shows(s, x, text));
    } else {
      var n := |order| - 1;
      HitsAreListed(s, order[..n], text);
      OneHit(s, order[..n], order[n], text);
      assert order[..n] + [order[n]] == order;
    }
  }

  lemma OneHit(s: Snapshot, rest: seq<int>, x: int, text: string)
    requires forall y :: y in rest ==> y < x
    requires Lists(s, Hits(s, rest, text), set y | y in rest && Shows(s, y, text))
    ensures Lists(s, Hits(s, rest + [x], text), set y | y in rest + [x] && Shows(s, y, text))
  {
    var before, after := set y | y in rest && Shows(s, y, text), set y | y in rest + [x] && Shows(s, y, text);
    assert (rest + [x])[..|rest|] == rest;
    MentionsShows(s, x, text);
    hide GetNode, Lists, Shows, Mentions;
    if Shows(s, x, text) {
      OneListed(s, Hits(s, rest, text), before, x, GetNode(s, x).value);
      assert after == before + {x};
    } else {
      assert after == before && Hits(s, rest + [x], text) == Hits(s, rest, text);
    }
  }

  lemma NothingListed(s: Snapshot, ids: set<int>)
    requires ids == {}
    ensures Lists(s, [], ids)
  {
    assert Enumerates([], ids) && At(s, [], []);
  }

  lemma TextFound(s: Snapshot, ids: set<int>, text: string)
    ensures Lists(s, Hits(s, Ascending(ids), text), set x | x in ids && Shows(s, x, text))
  {
    AscendingElements(ids);
    HitsAreListed(s, Ascending(ids), text);
    hide Shows, Lists, Ascending;
    assert (set x | x in Ascending(ids) && Shows(s, x, text)) == (set x | x in ids && Shows(s, x, text));
  }

  /** Fails without a node or a text; otherwise lists exactly the nodes of the subtree that
      show the text in their name, or in their value unless that is a password: each id
      once, in ascending order. */
  method FindByText(s: Snapshot, id: int, text: Option<string>) returns (r: Option<seq<Node>>)
    ensures r.Some? <==> GetNode(s, id).Some? && text.Some?
    ensures r.Some? ==> exists ids ::
      && Visited(s, GetNode(s, id).value, ids) && r.value == Hits(s, Ascending(ids), text.value)
      && Lists(s, r.value, set x | x in ids && Shows(s, x, text.value))
  {
    var node := GetNode(s, id);
    if node.None? || text.None? {
      return None;
    }
    var ids := AddDescendants(s, node.value, {node.value.id}, true);
    var order := Ascending(ids);
    assert Visited(s, node.value, ids);
    TextFound(s, ids, text.value);
    hide Mentions, Visited, Ascending, Lists, Shows;
    var list := [];
    for i := 0 to |order|
      invariant list == Hits(s, order[..i], text.value)
    {
      assert order[..i + 1][..i] == order[..i];
      var result := GetNode(s, order[i]);
      if result.Some? && Mentions(result.value, text.value) {
        list := list + [result.value];
      }
    }
    assert order[..|order|] == order;
    return Some(list);
  }

  datatype FocusType = AccessibilityFocus | InputFocus | OtherFocus

  predicate HasFocus(s: Snapshot, focused: int, kind: FocusType, x: int) {
    match GetNode(s, x)
    case None => false
    case Some(n) => (kind.AccessibilityFocus? && n.id == focused) || (kind.InputFocus? && n.focused)
  }

  ghost predicate LeastFocused(s: Snapshot, focused: int, kind: FocusType, ids: set<int>, r: Option<Node>) {
    if r.None? then forall y :: y in ids ==> !HasFocus(s, focused, kind, y)
    else exists x ::
      && x in ids && HasFocus(s, focused, kind, x) && GetNode(s, x) == r
      && forall y :: y in ids && y < x ==> !HasFocus(s, focused, kind, y)
  }

  lemma FocusedHere(s: Snapshot, focused: int, kind: FocusType, ids: set<int>, order: seq<int>, i: nat)
    requires Enumerates(order, ids) && i <= |order|
    requires forall y :: y in order[..i] ==> !HasFocus(s, focused, kind, y)
    requires i < |order| ==> HasFocus(s, focused, kind, order[i])
    ensures LeastFocused(s, focused, kind, ids, if i < |order| then GetNode(s, order[i]) else None)
  {
    LesserFirst(order, ids, i);
    hide Enumerates;
  }

  /** No node of the subtree has the focus at an id less than the one found, or at any if none
      was found. */
  ghost predicate NoneBefore(s: Snapshot, focused: int, kind: FocusType, root: Node, r: Option<Node>) {
    forall x | GetNode(s, x).Some? && (x == root.id || Reaches(s, root.children, {root.id}, x)) ::
      var n := GetNode(s, x).value;
      (kind.AccessibilityFocus? && n.id == focused) || (kind.InputFocus? && n.focused) ==>
        r.Some? && exists y :: y <= x && GetNode(s, y) == r
  }

  lemma NoneIsLess(s: Snapshot, focused: int, kind: FocusType, root: Node, ids: set<int>, r: Option<Node>)
    requires Visited(s, root, ids) && LeastFocused(s, focused, kind, ids, r)
    ensures r.Some? ==>
      (kind.AccessibilityFocus? && r.value.id == focused) || (kind.InputFocus? && r.value.focused)
    ensures NoneBefore(s, focused, kind, root, r)
  {
    hide GetNode, Reaches;
    forall x | GetNode(s, x).Some? && (x == root.id || Reaches(s, root.children, {root.id}, x))
               && HasFocus(s, focused, kind, x)
      ensures r.Some? && exists y :: y <= x && GetNode(s, y) == r
    {
      assert x in ids;
    }
  }

  lemma SweptIsVisited(s: Snapshot, node: Node, ids: set<int>)
    requires forall x :: x in ids <==> x in {node.id} || Reaches(s, node.children, {node.id}, x)
    ensures Visited(s, node, ids)
  {
  }

  /** The node at the least visited id that has the focus of the given type; a failure
      exactly when no visited id has it. */
  method FindFocused(s: Snapshot, id: int, focused: int, kind: FocusType) returns (r: Option<Node>)
    ensures GetNode(s, id).None? ==> r.None?
    ensures GetNode(s, id).Some? ==>
      exists ids :: Visited(s, GetNode(s, id).value, ids) && LeastFocused(s, focused, kind, ids, r)
    ensures r.Some? ==>
      (kind.AccessibilityFocus? && r.value.id == focused) || (kind.InputFocus? && r.value.focused)
    ensures GetNode(s, id).Some? ==> NoneBefore(s, focused, kind, GetNode(s, id).value, r)
  {
    hide HasFocus, Ascending, Visited, GetNode, Enumerates, LeastFocused, Reaches, NoneBefore;
    var root := GetNode(s, id);
    if root.None? {
      return None;
    }
    var ids := AddDescendants(s, root.value, {root.value.id}, true);
    var order := Ascending(ids);
    AscendingElements(ids);
    SweptIsVisited(s, root.value, ids);
    for i := 0 to |order|
      invariant forall y :: y in order[..i] ==> !HasFocus(s, focused, kind, y)
    {
      if HasFocus(s, focused, kind, order[i]) {
        FocusedHere(s, focused, kind, ids, order, i);
        NoneIsLess(s, focused, kind, root.value, ids, GetNode(s, order[i]));
        return GetNode(s, order[i]);
      }
      assert order[..i + 1] == order[..i] + [order[i]];
    }
    FocusedHere(s, focused, kind, ids, order, |order|);
    NoneIsLess(s, focused, kind, root.value, ids, None);
    return None;
  }

  // ---- Prefetching -----------------------------------------------------------

  function NodeAbove(s: Snapshot, n: Node): (a: Option<Node>)
    ensures n.parent >= 0 && n.parent in s.nodes ==> a == Some(s.nodes[n.parent])
    ensures n.parent < 0 || n.parent !in s.nodes ==> a == None
  {
    if n.parent < 0 then None else GetNode(s, n.parent)
  }

  /** The id of the node above, if the parent field names one that exists. */
  function ParentOf(s: Snapshot, id: int): Option<int> {
    var n := GetNode(s, id);
    var p := if n.None? then None else NodeAbove(s, n.value);
    if p.None? then None else Some(p.value.id)
  }

  /** k steps up the parent fields. */
  ghost function Up(s: Snapshot, a: int, k: nat): Option<int> {
    if k == 0 then Some(a)
    else
      var below := Up(s, a, k - 1);
      if below.None? then None else ParentOf(s, below.value)
  }

  ghost predicate Above(s: Snapshot, a: int, x: int) { exists k: nat :: Up(s, a, k) == Some(x) }

  /** The parents of these nodes are all among those. */
  ghost predicate ClosedBut(s: Snapshot, ids: set<int>, all: set<int>) {
    forall y :: y in ids ==> ParentOf(s, y).None? || ParentOf(s, y).value in all
  }

  lemma {:induction false} ClosedUpwards(s: Snapshot, a: int, ids: set<int>, k: nat)
    requires a in ids
    requires ClosedBut(s, ids, ids)
    ensures Up(s, a, k).None? || Up(s, a, k).value in ids
  {
    if k > 0 {
      ClosedUpwards(s, a, ids, k - 1);
    }
  }

  lemma AllAbove(s: Snapshot, a: int, ids: set<int>)
    requires a in ids
    requires ClosedBut(s, ids, ids)
    ensures forall x :: Above(s, a, x) ==> x in ids
  {
    forall x | Above(s, a, x) ensures x in ids {
      var k: nat :| Up(s, a, k) == Some(x);
      ClosedUpwards(s, a, ids, k);
    }
  }

  /** A climb from a node to the node above, and on, that meets no id twice. */
  ghost predicate Ascent(s: Snapshot, node: Node, p: seq<Node>) {
    && p != [] && p[0] == node
    && (forall i :: 0 <= i < |p| - 1 ==> NodeAbove(s, p[i]) == Some(p[i + 1]))
    && forall i, j :: 0 <= i < j < |p| ==> p[i].id != p[j].id
  }

  ghost function IdsOf(p: seq<Node>): set<int> { set i | 0 <= i < |p| :: p[i].id }

  /** The climb as far as it goes: to a node without one above, or to where an id comes back. */
  ghost predicate WholeAscent(s: Snapshot, node: Node, p: seq<Node>) {
    Ascent(s, node, p) && (var up := NodeAbove(s, p[|p| - 1]); up.None? || up.value.id in IdsOf(p))
  }

  ghost predicate Climbed(s: Snapshot, node: Node, ids: set<int>) {
    exists p :: WholeAscent(s, node, p) && ids == IdsOf(p)
  }

  lemma NodeAboveKeyed(s: Snapshot, n: Node)
    requires WellKeyed(s)
    ensures var p := NodeAbove(s, n); p.Some? ==> p.value.id in s.nodes && GetNode(s, p.value.id) == p
  {
  }

  lemma {:induction false} AscentIsUp(s: Snapshot, node: Node, p: seq<Node>, i: nat)
    requires WellKeyed(s) && GetNode(s, node.id) == Some(node) && Ascent(s, node, p) && i < |p|
    ensures GetNode(s, p[i].id) == Some(p[i]) && Up(s, node.id, i) == Some(p[i].id)
  {
    if i > 0 {
      AscentIsUp(s, node, p, i - 1);
      assert NodeAbove(s, p[i - 1]) == Some(p[i - 1 + 1]);
      NodeAboveKeyed(s, p[i - 1]);
    }
  }

  /** With nodes kept under their own ids, that is everything above. */
  lemma ClimbedIsAbove(s: Snapshot, node: Node, ids: set<int>)
    requires WellKeyed(s) && GetNode(s, node.id) == Some(node) && Climbed(s, node, ids)
    ensures forall x :: x in ids <==> Above(s, node.id, x)
  {
    var p: seq<Node> :| WholeAscent(s, node, p) && ids == IdsOf(p);
    forall i | 0 <= i < |p| ensures GetNode(s, p[i].id) == Some(p[i]) && Above(s, node.id, p[i].id) {
      AscentIsUp(s, node, p, i);
    }
    assert p[0].id in ids;
    hide WellKeyed, Above;
    forall y | y in ids ensures ParentOf(s, y).None? || ParentOf(s, y).value in ids {
      var i :| 0 <= i < |p| && p[i].id == y;
      assert i < |p| - 1 ==> NodeAbove(s, p[i]) == Some(p[i + 1]) && p[i + 1].id in ids;
    }
    AllAbove(s, node.id, ids);
  }

  lemma AscentGoesOn(s: Snapshot, node: Node, p: seq<Node>, up: Node)
    requires Ascent(s, node, p) && NodeAbove(s, p[|p| - 1]) == Some(up) && up.id !in IdsOf(p)
    ensures Ascent(s, node, p + [up]) && IdsOf(p + [up]) == IdsOf(p) + {up.id}
    ensures |OwnIds(s) - IdsOf(p + [up])| < |OwnIds(s) - IdsOf(p)|
  {
    assert p != [];
    hide NodeAbove, OwnIds, IdsOf, Ascent;
    AboveIsOwn(s, p[|p| - 1]);
    IdsGrow(p, up);
    OneLeft(OwnIds(s), IdsOf(p), up.id);
    AscentExtended(s, node, p, up);
  }

  lemma AscentExtended(s: Snapshot, node: Node, p: seq<Node>, up: Node)
    requires Ascent(s, node, p) && NodeAbove(s, p[|p| - 1]) == Some(up)
    requires forall i :: 0 <= i < |p| ==> p[i].id != up.id
    ensures Ascent(s, node, p + [up])
  {
    hide NodeAbove;
    var q := p + [up];
    assert q[|p|] == up && forall i :: 0 <= i < |p| ==> q[i] == p[i];
    forall i | 0 <= i < |q| - 1 ensures NodeAbove(s, q[i]) == Some(q[i + 1]) {
      if i < |p| - 1 {
        assert q[i + 1] == p[i + 1];
      }
    }
  }

  lemma IdsGrow(p: seq<Node>, up: Node)
    ensures IdsOf(p + [up]) == IdsOf(p) + {up.id}
    ensures up.id !in IdsOf(p) ==> forall i :: 0 <= i < |p| ==> p[i].id != up.id
  {
    var q := p + [up];
    assert forall i :: 0 <= i < |p| ==> p[i].id in IdsOf(p);
    assert q[|p|] == up && forall i :: 0 <= i < |p| ==> q[i] == p[i];
    forall x | x in IdsOf(p) ensures x in IdsOf(q) {
      var i :| 0 <= i < |p| && p[i].id == x;
      assert q[i].id == x;
    }
  }

  lemma OneLeft(own: set<int>, ids: set<int>, x: int)
    requires x in own && x !in ids
    ensures |own - (ids + {x})| < |own - ids|
  {
    assert own - ids == (own - (ids + {x})) + {x};
  }

  /** The ids the nodes have themselves. */
  ghost function OwnIds(s: Snapshot): set<int> { set k | k in s.nodes :: s.nodes[k].id }

  lemma AboveIsOwn(s: Snapshot, n: Node)
    ensures NodeAbove(s, n).Some? ==> NodeAbove(s, n).value.id in OwnIds(s)
  {
  }

  /** The node and what is above it, although the parent fields may form a cycle. */
  method Predecessors(s: Snapshot, node: Node) returns (ids: set<int>)
    ensures node.id in ids && Climbed(s, node, ids)
  {
    hide Ascent, NodeAbove, IdsOf, OwnIds;
    ids := {node.id};
    var parent := NodeAbove(s, node);
    ghost var p := [node];
    AscentStarts(s, node);
    while parent.Some? && parent.value.id != node.id && parent.value.id !in ids
      invariant Ascent(s, node, p) && p != [] && node.id in ids
      invariant ids == IdsOf(p) && parent == NodeAbove(s, p[|p| - 1])
      decreases |OwnIds(s) - ids|
    {
      AscentGoesOn(s, node, p, parent.value);
      ids := ids + {parent.value.id};
      p := p + [parent.value];
      parent := NodeAbove(s, parent.value);
    }
    assert WholeAscent(s, node, p);
  }

  lemma AscentStarts(s: Snapshot, node: Node)
    ensures Ascent(s, node, [node]) && IdsOf([node]) == {node.id}
  {
    assert [node][0] == node;
  }

  datatype Mode = Mode(predecessors: bool, siblings: bool, children: bool, recursive: bool)

  /** The node, and as the mode asks: what is above it, and the children of its parent. */
  ghost predicate Base(s: Snapshot, node: Node, mode: Mode, up: set<int>, x: int) {
    || x == node.id
    || (mode.predecessors && x in up)
    || (mode.siblings && node.parent >= 0 && x in Children(s, node.parent))
  }

  /** With children asked for, those too, or everything below them; a base id is not looked
      into. */
  ghost predicate Extends(s: Snapshot, node: Node, mode: Mode, up: set<int>, base: set<int>, ids: set<int>) {
    && (mode.predecessors ==> Climbed(s, node, up))
    && (forall x :: x in base <==> Base(s, node, mode, up, x))
    && forall x :: x in ids <==>
         || x in base
         || (mode.recursive && Reaches(s, node.children, base, x))
         || (mode.children && !mode.recursive && x in node.children)
  }

  /** The ids a query answers with. */
  ghost predicate Answered(s: Snapshot, node: Node, mode: Mode, ids: set<int>) {
    exists up, base :: Extends(s, node, mode, up, base, ids)
  }

  ghost function Present(s: Snapshot, ids: seq<int>): seq<Node> {
    if ids == [] then []
    else
      var n := GetNode(s, ids[|ids| - 1]);
      Present(s, ids[..|ids| - 1]) + (if n.Some? then [n.value] else [])
  }

  lemma {:induction false} PresentIsListed(s: Snapshot, order: seq<int>)
    requires forall i, j :: 0 <= i < j < |order| ==> order[i] < order[j]
    ensures Lists(s, Present(s, order), set x | x in order && GetNode(s, x).Some?)
  {
    hide GetNode, Lists;
    if order == [] {
      NothingListed(s, set x | x in order && GetNode(s, x).Some?);
    } else {
      var n := |order| - 1;
      PresentIsListed(s, order[..n]);
      OnePresent(s, order[..n], order[n]);
      assert order[..n] + [order[n]] == order;
    }
  }

  lemma OnePresent(s: Snapshot, rest: seq<int>, x: int)
    requires forall y :: y in rest ==> y < x
    requires Lists(s, Present(s, rest), set y | y in rest && GetNode(s, y).Some?)
    ensures Lists(s, Present(s, rest + [x]), set y | y in rest + [x] && GetNode(s, y).Some?)
  {
    var before, after := set y | y in rest && GetNode(s, y).Some?, set y | y in rest + [x] && GetNode(s, y).Some?;
    assert (rest + [x])[..|rest|] == rest;
    var n := GetNode(s, x);
    hide GetNode, Lists;
    if n.Some? {
      OneListed(s, Present(s, rest), before, x, n.value);
      assert after == before + {x};
    } else {
      assert after == before && Present(s, rest + [x]) == Present(s, rest);
    }
  }

  lemma PresentFound(s: Snapshot, ids: set<int>)
    ensures Lists(s, Present(s, Ascending(ids)), set x | x in ids && GetNode(s, x).Some?)
  {
    AscendingElements(ids);
    PresentIsListed(s, Ascending(ids));
    hide Lists, Ascending, GetNode;
    assert (set x | x in Ascending(ids) && GetNode(s, x).Some?) == (set x | x in ids && GetNode(s, x).Some?);
  }

  method Selected(s: Snapshot, node: Node, mode: Mode) returns (ids: set<int>)
    ensures Answered(s, node, mode, ids)
  {
    hide Climbed, Reaches;
    ids := {node.id};
    if mode.predecessors {
      ids := Predecessors(s, node);
    }
    ghost var up := ids;
    if mode.siblings && node.parent >= 0 {
      var parent := GetNode(s, node.parent);
      if parent.Some? {
        ids := ids + (set c | c in parent.value.children);
      }
    }
    ghost var base := ids;
    assert forall x :: x in base <==> Base(s, node, mode, up, x);
    if mode.children || mode.recursive {
      ids := AddDescendants(s, node, ids, mode.recursive);
    }
    assert Extends(s, node, mode, up, base, ids);
  }

  method FindById(s: Snapshot, id: int, mode: Mode) returns (r: Option<seq<Node>>)
    ensures r.Some? <==> GetNode(s, id).Some?
    ensures r.Some? ==> exists ids ::
      && Answered(s, GetNode(s, id).value, mode, ids) && r.value == Present(s, Ascending(ids))
      && Lists(s, r.value, set x | x in ids && GetNode(s, x).Some?)
  {
    hide Answered, Ascending, Lists;
    var node := GetNode(s, id);
    if node.None? {
      return None;
    }
    var ids := Selected(s, node.value, mode);
    var order := Ascending(ids);
    PresentFound(s, ids);
    var list := [];
    for i := 0 to |order|
      invariant list == Present(s, order[..i])
    {
      assert order[..i + 1][..i] == order[..i];
      var result := GetNode(s, order[i]);
      if result.Some? {
        list := list + [result.value];
      }
    }
    assert order[..|order|] == order;
    return Some(list);
  }

  // ---- Directional search ----------------------------------------------------

  /** An entry of the reading order that a reader stops at. */
  predicate Stop(s: Snapshot, x: int) {
    match GetNode(s, x)
    case None => false
    case Some(n) => n.visible && (n.focusable || n.name != "" || n.editable)
  }

  ghost predicate FirstAt(order: seq<int>, id: int, i: nat) {
    i < |order| && order[i] == id && id !in order[..i]
  }

  /** Entry j is on the asked side of entry i. */
  predicate Beyond(i: int, j: int, forward: bool) { if forward then i < j else j < i }

  /** The nearest stop on the asked side of entry i. */
  ghost predicate Nearest(s: Snapshot, i: nat, j: nat, forward: bool) {
    && i < |s.order| && j < |s.order| && Beyond(i, j, forward) && Stop(s, s.order[j])
    && forall k: nat :: k < |s.order| && Beyond(i, k, forward) && Beyond(k, j, forward) ==> !Stop(s, s.order[k])
  }

  ghost predicate NoStop(s: Snapshot, i: nat, forward: bool) {
    forall k: nat :: k < |s.order| && Beyond(i, k, forward) ==> !Stop(s, s.order[k])
  }

  /** What a directional search from an id answers. */
  ghost predicate Finds(s: Snapshot, id: int, forward: bool, r: Option<Node>) {
    var n := GetNode(s, id);
    if n.None? || n.value.id !in s.order then r.None?
    else if r.None? then exists i: nat :: FirstAt(s.order, n.value.id, i) && NoStop(s, i, forward)
    else exists i: nat, j: nat ::
      FirstAt(s.order, n.value.id, i) && Nearest(s, i, j, forward) && GetNode(s, s.order[j]) == r
  }

  method FindNext(s: Snapshot, id: int, forward: bool) returns (r: Option<Node>)
    ensures Finds(s, id, forward, r)
    ensures r.Some? ==> r.value.visible && (r.value.focusable || r.value.name != "" || r.value.editable)
    ensures GetNode(s, id).Some? ==>
      forall i: nat, k: nat | FirstAt(s.order, GetNode(s, id).value.id, i) && k < |s.order|
                              && (if forward then i < k else k < i) && GetNode(s, s.order[k]).Some? ::
        var n := GetNode(s, s.order[k]).value;
        n.visible && (n.focusable || n.name != "" || n.editable) ==>
          r.Some? && exists j: nat :: j < |s.order| && (if forward then i < j <= k else k <= j < i)
                                      && GetNode(s, s.order[j]) == r
  {
    var node := GetNode(s, id);
    if node.None? {
      return None;
    }
    var found: nat := 0;
    while found < |s.order| && s.order[found] != node.value.id
      invariant found <= |s.order| && node.value.id !in s.order[..found]
    {
      found := found + 1;
    }
    if found == |s.order| {
      assert s.order[..found] == s.order;
      return None;
    }
    assert FirstAt(s.order, node.value.id, found);
    hide FirstAt, Stop;
    var step := if forward then 1 else -1;
    var index: int := found + step;
    while 0 <= index < |s.order|
      invariant -1 <= index <= |s.order| && Beyond(found, index, forward)
      invariant forall k: nat :: k < |s.order| && Beyond(found, k, forward) && Beyond(k, index, forward) ==>
                  !Stop(s, s.order[k])
      decreases if forward then |s.order| - index else index
    {
      if Stop(s, s.order[index]) {
        assert Nearest(s, found, index, forward);
        return GetNode(s, s.order[index]);
      }
      index := index + step;
    }
    assert NoStop(s, found, forward);
    return None;
  }

  /** In an order without duplicates, going one step and back from a stop returns to it
      exactly when the entry reached holds its node's own id, and not -1 for the root. */
  lemma ThereAndBack(s: Snapshot, i: nat, j: nat, forward: bool)
    requires WellKeyed(s) && Nearest(s, i, j, forward) && Stop(s, s.order[i])
    requires forall a, b :: 0 <= a < b < |s.order| ==> s.order[a] != s.order[b]
    requires s.order[i] == GetNode(s, s.order[i]).value.id
    ensures Finds(s, s.order[i], forward, GetNode(s, s.order[j]))
    ensures Finds(s, GetNode(s, s.order[j]).value.id, !forward, GetNode(s, s.order[i]))
            <==> s.order[j] == GetNode(s, s.order[j]).value.id
  {
    var a, b := GetNode(s, s.order[i]).value, GetNode(s, s.order[j]).value;
    assert FirstAt(s.order, a.id, i);
    if s.order[j] == b.id {
      assert FirstAt(s.order, b.id, j) && Nearest(s, j, i, !forward);
    } else {
      KeyedById(s, s.order[j]);
      forall k: nat, l: nat | FirstAt(s.order, b.id, k) && Nearest(s, k, l, !forward)
        ensures GetNode(s, s.order[l]) != Some(a)
      {
        assert s.order[k] != s.order[j] && Stop(s, s.order[k]);
      }
    }
  }

  /** Such an order: forward from node 1 reaches the root through its alias, and back from
      the root finds nothing. */
  lemma AliasLosesTheWay()
    ensures exists s: Snapshot, a: Node, b: Node ::
      && WellKeyed(s) && (forall i, j :: 0 <= i < j < |s.order| ==> s.order[i] != s.order[j])
      && Stop(s, a.id) && Finds(s, a.id, true, Some(b)) && !Finds(s, b.id, false, Some(a))
  {
    var root := Node(0, -1, [], "root", "", true, true, false, false, false, false, false, false);
    var one := root.(id := 1);
    var s := Snapshot(0, 0, [1, -1], map[0 := root, 1 := one]);
    assert FirstAt(s.order, 1, 0) && Nearest(s, 0, 1, true);
    assert Finds(s, one.id, true, Some(root)) && !Finds(s, root.id, false, Some(one));
  }
}
