/** The stock optional value, and sets of integers in ascending order, the order in which
    the ordered sets and maps of the sources are visited. */
module Options {
  datatype Option<+T> = None | Some(value: T)

  ghost function Elements<T>(s: seq<T>): set<T> { set x | x in s }

  lemma SomeElement(s: set<int>)
    ensures s == {} || exists x :: x in s
  {
    if forall x :: x !in s {
      assert s == {};
    }
  }

  predicate IsLeast(s: set<int>, x: int) { x in s && forall y :: y in s ==> x <= y }

  lemma {:induction false} LeastExists(s: set<int>)
    requires s != {}
    ensures exists x :: IsLeast(s, x)
    decreases |s|
  {
    SomeElement(s);
    var a :| a in s;
    if !IsLeast(s, a) {
      var b :| b in s && b < a;
      assert b in s - {a};
      LeastExists(s - {a});
      var x :| IsLeast(s - {a}, x);
      assert x <= b;
      forall y | y in s ensures x <= y {
        if y != a {
          assert y in s - {a};
        }
      }
      assert IsLeast(s, x);
    }
  }

  /** The elements of a set in ascending order. */
  function Ascending(s: set<int>): (r: seq<int>)
    ensures |r| == |s|
    decreases |s|
  {
    if s == {} then []
    else
      LeastExists(s);
      assert exists x :: x in s && IsLeast(s, x);
      var x :| x in s && IsLeast(s, x);
      [x] + Ascending(s - {x})
  }

  /** Exactly the elements of the set, each once, from the least up. */
  ghost predicate Enumerates(r: seq<int>, s: set<int>) {
    && (forall i :: 0 <= i < |r| ==> r[i] in s)
    && (forall i, j :: 0 <= i < j < |r| ==> r[i] < r[j])
    && (forall x :: x in s ==> exists i :: 0 <= i < |r| && r[i] == x)
  }

  lemma LeastFirst(s: set<int>, x: int, t: seq<int>)
    requires IsLeast(s, x) && Enumerates(t, s - {x})
    ensures Enumerates([x] + t, s)
  {
    var r := [x] + t;
    assert r[0] == x;
    forall i | 0 < i < |r| ensures r[i] in s && x < r[i] {
      assert r[i] == t[i - 1] && t[i - 1] in s - {x};
    }
    forall i, j | 0 <= i < j < |r| ensures r[i] < r[j] {
      if i > 0 {
        assert t[i - 1] < t[j - 1];
      }
    }
    forall y | y in s ensures exists i :: 0 <= i < |r| && r[i] == y {
      if y != x {
        assert y in s - {x};
        var i :| 0 <= i < |t| && t[i] == y;
        assert r[i + 1] == y;
      }
    }
  }

  lemma {:induction false} AscendingElements(s: set<int>)
    ensures Enumerates(Ascending(s), s)
    decreases |s|
  {
    if s != {} {
      var r := Ascending(s);
      var x, t := r[0], r[1..];
      assert IsLeast(s, x) && t == Ascending(s - {x}) && r == [x] + t;
      hide Enumerates, IsLeast;
      AscendingElements(s - {x});
      LeastFirst(s, x, t);
    }
  }

  /** What comes before an element of an enumeration is everything less than it. */
  lemma LesserFirst(r: seq<int>, s: set<int>, i: nat)
    requires Enumerates(r, s) && i <= |r|
    ensures i < |r| ==> r[i] in s && forall y :: y in s && y < r[i] ==> y in r[..i]
    ensures i == |r| ==> forall y :: y in s ==> y in r[..i]
  {
    forall y | y in s && (i < |r| ==> y < r[i]) ensures y in r[..i] {
      var k :| 0 <= k < |r| && r[k] == y;
      assert k < i && r[..i][k] == y;
    }
  }
}
