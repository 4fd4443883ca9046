/**
 * The draw order of nodes: a sequence of ids, later ids drawn on top.
 * Selecting a node finds its cell, removes it and pushes the id again
 * at the end ("bring to front").
 */
module ZOrder {

  /** No element occurs twice. */
  predicate NoDup<T(==)>(s: seq<T>) {
    forall i, j :: 0 <= i < j < |s| ==> s[i] != s[j]
  }

  /** Position of the first occurrence of `x` in `s`. */
  function IndexOf<T(==)>(s: seq<T>, x: T): (k: nat)
    requires x in s
    ensures k < |s| && s[k] == x
    ensures forall j :: 0 <= j < k ==> s[j] != x
  {
    if s[0] == x then 0 else 1 + IndexOf(s[1..], x)
  }

  /** Removes the first cell holding `x`, if there is one (a find followed by a remove). */
  function RemoveFirst<T(==)>(s: seq<T>, x: T): (r: seq<T>)
    ensures x !in s ==> r == s
    ensures x in s ==> |r| == |s| - 1
  {
    if s == [] then []
    else if s[0] == x then s[1..]
    else [s[0]] + RemoveFirst(s[1..], x)
  }

  /**
   * The order after selecting `x`: its old cell removed and `x` pushed
   * last. A node already in the order keeps the length; a new one is
   * appended.
   */
  function BringToFront<T(==)>(s: seq<T>, x: T): (r: seq<T>)
    ensures |r| > 0 && r[|r| - 1] == x
    ensures x in s ==> |r| == |s|
    ensures x !in s ==> r == s + [x]
  {
    RemoveFirst(s, x) + [x]
  }

  /**
   * Without duplicates, removing `x` leaves no `x`, no duplicates, and
   * exactly the other elements.
   */
  lemma {:induction false} RemoveFirstDrops<T>(s: seq<T>, x: T)
    requires NoDup(s)
    ensures var r := RemoveFirst(s, x);
      && x !in r && NoDup(r)
      && (forall y :: y in r <==> y in s && y != x)
  {
    if s != [] && s[0] != x {
      RemoveFirstDrops(s[1..], x);
      var r := RemoveFirst(s, x);
      assert r == [s[0]] + RemoveFirst(s[1..], x);
      assert s[0] !in s[1..];
      forall y ensures y in r <==> y in s && y != x {
        assert y in s <==> y == s[0] || y in s[1..];
      }
    } else if s != [] {
      assert forall y :: y in s <==> y == s[0] || y in s[1..];
    }
  }

  /**
   * Bringing `x` to the front leaves it last and only once, keeps the
   * sequence free of duplicates and changes no membership except adding `x`.
   */
  lemma BringToFrontShape<T>(s: seq<T>, x: T)
    requires NoDup(s)
    ensures var r := BringToFront(s, x);
      && |r| > 0 && r[|r| - 1] == x
      && x !in r[..|r| - 1]
      && multiset(r)[x] == 1
      && NoDup(r)
      && (forall y :: y in r <==> y in s || y == x)
  {
    var r := BringToFront(s, x);
    var rest := RemoveFirst(s, x);
    RemoveFirstDrops(s, x);
    assert r[..|r| - 1] == rest;
    assert multiset(r) == multiset(rest) + multiset{x};
  }

  /** The first `y` of a sequence that does not start with `y` sits one further than in its tail. */
  lemma IndexOfCons<T>(a: T, t: seq<T>, y: T)
    requires y in t && a != y
    ensures IndexOf([a] + t, y) == 1 + IndexOf(t, y)
  {
    assert ([a] + t)[1..] == t;
  }

  /** Where an element other than `x` lands once `x`'s cell is removed. */
  lemma {:induction false} RemoveFirstIndex<T>(s: seq<T>, x: T, y: T)
    requires x in s && y in s && y != x
    ensures y in RemoveFirst(s, x)
    ensures IndexOf(RemoveFirst(s, x), y)
      == if IndexOf(s, y) < IndexOf(s, x) then IndexOf(s, y) else IndexOf(s, y) - 1
  {
    if s[0] == x {
      assert RemoveFirst(s, x) == s[1..];
    } else if s[0] == y {
      assert RemoveFirst(s, x) == [y] + RemoveFirst(s[1..], x);
    } else {
      RemoveFirstIndex(s[1..], x, y);
      IndexOfCons(s[0], RemoveFirst(s[1..], x), y);
    }
  }

  /** Pushing an element at the end does not move the earlier ones. */
  lemma IndexOfAppend<T>(t: seq<T>, x: T, a: T)
    requires a in t
    ensures a in t + [x] && IndexOf(t + [x], a) == IndexOf(t, a)
  {
    assert (t + [x])[IndexOf(t, a)] == a;
  }

  /**
   * Bringing `x` to the front keeps the relative order of every other pair
   * of elements: `a` is drawn before `b` afterwards exactly when it was before.
   */
  lemma BringToFrontKeepsOrder<T>(s: seq<T>, x: T, a: T, b: T)
    requires a in s && b in s && a != x && b != x
    ensures a in BringToFront(s, x) && b in BringToFront(s, x)
    ensures IndexOf(BringToFront(s, x), a) < IndexOf(BringToFront(s, x), b)
        <==> IndexOf(s, a) < IndexOf(s, b)
  {
    var rest := RemoveFirst(s, x);
    var ia, ib := IndexOf(s, a), IndexOf(s, b);
    if x in s {
      RemoveFirstIndex(s, x, a);
      RemoveFirstIndex(s, x, b);
      var k := IndexOf(s, x);
      assert ia != k && ib != k;
    }
    assert a in rest && b in rest;
    var ra, rb := IndexOf(rest, a), IndexOf(rest, b);
    assert ra < rb <==> ia < ib;
    IndexOfAppend(rest, x, a);
    IndexOfAppend(rest, x, b);
  }
}
