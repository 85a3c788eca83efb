// The order std::set<std::string> keeps its elements in: lexicographic
// comparison character by character, a proper prefix first. Iterating such a
// set visits its elements in strictly ascending order.
module Ordered {

  /** a sorts strictly before b. */
  predicate LexLess(a: string, b: string)
    decreases |a|
  {
    if a == [] then b != []
    else if b == [] then false
    else a[0] < b[0] || (a[0] == b[0] && LexLess(a[1..], b[1..]))
  }

  lemma {:induction false} LexLessIrreflexive(a: string)
    ensures !LexLess(a, a)
  {
    if a != [] {
      LexLessIrreflexive(a[1..]);
    }
  }

  lemma {:induction false} LexLessTransitive(a: string, b: string, c: string)
    requires LexLess(a, b) && LexLess(b, c)
    ensures LexLess(a, c)
    decreases |a|
  {
    if a != [] && b != [] && c != [] && a[0] == b[0] && b[0] == c[0] {
      LexLessTransitive(a[1..], b[1..], c[1..]);
    }
  }

  /** Any two distinct strings are ordered one way or the other. */
  lemma {:induction false} LexLessTotal(a: string, b: string)
    requires a != b
    ensures LexLess(a, b) || LexLess(b, a)
    decreases |a|
  {
    if a != [] && b != [] && a[0] == b[0] {
      assert a == [a[0]] + a[1..] && b == [b[0]] + b[1..];
      LexLessTotal(a[1..], b[1..]);
    }
  }

  /** Ascending without repeats. */
  ghost predicate StrictlySorted(xs: seq<string>) {
    forall i, j :: 0 <= i < j < |xs| ==> LexLess(xs[i], xs[j])
  }

  function Elems(xs: seq<string>): set<string> {
    set x | x in xs
  }

  /** A strictly sorted sequence is determined by its elements: there is only
      one way to list a set in ascending order. */
  lemma {:induction false} SortedUnique(xs: seq<string>, ys: seq<string>)
    requires StrictlySorted(xs) && StrictlySorted(ys) && Elems(xs) == Elems(ys)
    ensures xs == ys
    decreases |xs|
  {
    assert xs != [] ==> xs[0] in Elems(xs);
    assert ys != [] ==> ys[0] in Elems(ys);
    if xs != [] && ys != [] {
      assert xs[0] in Elems(ys) && ys[0] in Elems(xs);
      if xs[0] != ys[0] {
        var i :| 0 <= i < |ys| && ys[i] == xs[0];
        var j :| 0 <= j < |xs| && xs[j] == ys[0];
        LexLessIrreflexive(xs[0]);
        LexLessIrreflexive(ys[0]);
        LexLessTransitive(xs[0], ys[0], xs[0]);
      }
      assert Elems(xs[1..]) == Elems(xs) - {xs[0]} by {
        forall x | x in Elems(xs) && x != xs[0] ensures x in xs[1..] {
          var k :| 0 <= k < |xs| && xs[k] == x;
        }
        forall k | 0 < k < |xs| ensures xs[k] != xs[0] {
          LexLessIrreflexive(xs[0]);
        }
      }
      assert Elems(ys[1..]) == Elems(ys) - {ys[0]} by {
        forall y | y in Elems(ys) && y != ys[0] ensures y in ys[1..] {
          var k :| 0 <= k < |ys| && ys[k] == y;
        }
        forall k | 0 < k < |ys| ensures ys[k] != ys[0] {
          LexLessIrreflexive(ys[0]);
        }
      }
      SortedUnique(xs[1..], ys[1..]);
    }
  }

  /** x is the least element of s. */
  predicate IsLeast(x: string, s: set<string>) {
    x in s && forall y :: y in s && y != x ==> LexLess(x, y)
  }

  /** Every non-empty set of strings has a least element. */
  lemma {:induction false} HasLeast(s: set<string>)
    requires s != {}
    ensures exists x :: IsLeast(x, s)
    decreases |s|
  {
    var z :| z in s;
    if s == {z} {
      assert IsLeast(z, s);
    } else {
      var s' := s - {z};
      HasLeast(s');
      var x :| IsLeast(x, s');
      if LexLess(x, z) {
        assert IsLeast(x, s);
      } else {
        LexLessTotal(x, z);
        forall y | y in s && y != z
          ensures LexLess(z, y)
        {
          if y != x {
            LexLessTransitive(z, x, y);
          }
        }
        assert IsLeast(z, s);
      }
    }
  }

  /** Putting a string below all elements of a sorted sequence in front
      keeps it sorted. */
  lemma ConsSorted(x: string, r: seq<string>)
    requires StrictlySorted(r) && forall y :: y in Elems(r) ==> LexLess(x, y)
    ensures StrictlySorted([x] + r)
  {
    var r' := [x] + r;
    forall i, j | 0 <= i < j < |r'|
      ensures LexLess(r'[i], r'[j])
    {
      assert r'[j] == r[j - 1] && r[j - 1] in Elems(r);
      if i > 0 {
        assert r'[i] == r[i - 1];
      }
    }
  }

  lemma ConsElems(x: string, r: seq<string>)
    ensures Elems([x] + r) == {x} + Elems(r)
  {
    var r' := [x] + r;
    forall y | y in Elems(r')
      ensures y in {x} + Elems(r)
    {
      var k :| 0 <= k < |r'| && r'[k] == y;
      if k > 0 {
        assert r[k - 1] == y;
      }
    }
    forall y | y in Elems(r)
      ensures y in Elems(r')
    {
      var k :| 0 <= k < |r| && r[k] == y;
      assert r'[k + 1] == y;
    }
  }

  /** Every finite set of strings can be listed in ascending order. */
  lemma {:induction false} SortedExists(s: set<string>)
    ensures exists r :: StrictlySorted(r) && Elems(r) == s
    decreases |s|
  {
    if s == {} {
      assert StrictlySorted([]) && Elems([]) == s;
    } else {
      HasLeast(s);
      var x :| IsLeast(x, s);
      var s' := s - {x};
      SortedExists(s');
      var r :| StrictlySorted(r) && Elems(r) == s';
      ConsSorted(x, r);
      ConsElems(x, r);
      assert s == {x} + s';
      assert StrictlySorted([x] + r) && Elems([x] + r) == s;
    }
  }

  /** The elements of s in ascending order: the order in which a std::set
      iterator visits them. */
  ghost function Ascending(s: set<string>): (r: seq<string>)
    ensures StrictlySorted(r) && Elems(r) == s
  {
    SortedExists(s);
    var r :| StrictlySorted(r) && Elems(r) == s;
    r
  }

  /** The elements of a std::set in the order its iterator visits them. */
  method SortedElements(s: set<string>) returns (r: seq<string>)
    ensures StrictlySorted(r) && Elems(r) == s
    ensures r == Ascending(s)
  {
    r := [];
    var rest := s;
    while rest != {}
      invariant StrictlySorted(r)
      invariant forall y :: y in s <==> y in r || y in rest
      invariant forall i :: 0 <= i < |r| ==> r[i] !in rest
      invariant forall i, y :: 0 <= i < |r| && y in rest ==> LexLess(r[i], y)
      decreases |rest|
    {
      HasLeast(rest);
      var x :| IsLeast(x, rest);
      ghost var r0 := r;
      r := r + [x];
      rest := rest - {x};
      forall i, j | 0 <= i < j < |r|
        ensures LexLess(r[i], r[j])
      {
        assert r[i] == r0[i];
      }
      forall i, y | 0 <= i < |r| && y in rest
        ensures LexLess(r[i], y)
      {
        if i < |r0| {
          assert r[i] == r0[i];
        }
      }
    }
    SortedUnique(r, Ascending(s));
  }
}
