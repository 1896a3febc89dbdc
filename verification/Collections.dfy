/** Facts about built-in collections. */
module Collections {
  lemma {:induction false} SubsetSize<T>(a: set<T>, b: set<T>)
    requires a <= b
    ensures |a| <= |b|
  {
    if a != {} {
      var x :| x in a;
      SubsetSize(a - {x}, b - {x});
    }
  }

  lemma Associative<T>(a: seq<T>, b: seq<T>, c: seq<T>)
    ensures a + (b + c) == a + b + c
  {
  }

  lemma RemoveAt<T>(s: seq<T>, j: nat)
    requires j < |s|
    ensures multiset(s[..j] + s[j + 1..]) == multiset(s) - multiset{s[j]}
  {
    assert s == s[..j] + [s[j]] + s[j + 1..];
  }

  /** `s.flatMap(f)` */
  function FlatMap<A, B>(f: A -> seq<B>, s: seq<A>): seq<B> {
    if s == [] then [] else f(s[0]) + FlatMap(f, s[1..])
  }

  lemma {:induction false} FlatMapAppend<A, B>(f: A -> seq<B>, a: seq<A>, b: seq<A>)
    ensures FlatMap(f, a + b) == FlatMap(f, a) + FlatMap(f, b)
  {
    if a == [] {
      assert a + b == b;
    } else {
      FlatMapAppend(f, a[1..], b);
      assert (a + b)[1..] == a[1..] + b;
      Associative(f(a[0]), FlatMap(f, a[1..]), FlatMap(f, b));
    }
  }

  lemma FlatMapOne<A, B>(f: A -> seq<B>, x: A)
    ensures FlatMap(f, [x]) == f(x)
  {
    assert FlatMap(f, [x][1..]) == [];
  }

  lemma FlatMapWithout<A, B>(f: A -> seq<B>, a: seq<A>, j: nat)
    requires j < |a|
    ensures multiset(FlatMap(f, a)) == multiset(f(a[j])) + multiset(FlatMap(f, a[..j] + a[j + 1..]))
  {
    var before, x, after := a[..j], a[j], a[j + 1..];
    FlatMapAppend(f, before, after);
    FlatMapMiddle(f, before, x, after);
    MiddleOut(FlatMap(f, before), f(x), FlatMap(f, after));
    SplitAround(a, j);
  }

  lemma SplitAround<T>(a: seq<T>, j: nat)
    requires j < |a|
    ensures a == a[..j] + [a[j]] + a[j + 1..]
  {
  }

  lemma MiddleOut<T>(a: seq<T>, b: seq<T>, c: seq<T>)
    ensures multiset(a + b + c) == multiset(b) + multiset(a + c)
  {
  }

  lemma FlatMapMiddle<A, B>(f: A -> seq<B>, before: seq<A>, x: A, after: seq<A>)
    ensures FlatMap(f, before + [x] + after) == FlatMap(f, before) + f(x) + FlatMap(f, after)
  {
    FlatMapAppend(f, before, [x]);
    FlatMapAppend(f, before + [x], after);
    FlatMapOne(f, x);
  }

  lemma SomeIndex<T>(a: seq<T>, b: seq<T>) returns (j: nat)
    requires multiset(a) == multiset(b) && a != []
    ensures j < |b| && b[j] == a[0]
  {
    assert a[0] in multiset(b);
    j :| 0 <= j < |b| && b[j] == a[0];
  }

  /** Reordering the input only reorders the output. */
  lemma {:induction false} FlatMapReordered<A, B>(f: A -> seq<B>, a: seq<A>, b: seq<A>)
    requires multiset(a) == multiset(b)
    ensures multiset(FlatMap(f, a)) == multiset(FlatMap(f, b))
  {
    if a == [] {
      assert |multiset(b)| == 0;
      assert b == [];
    } else {
      var j := SomeIndex(a, b);
      RemoveBoth(a, b, j);
      var a', b' := a[..0] + a[1..], b[..j] + b[j + 1..];
      var x := multiset(FlatMap(f, a'));
      FlatMapReordered(f, a', b');
      assert x == multiset(FlatMap(f, b'));
      var y := multiset(f(a[0]));
      assert multiset(FlatMap(f, a)) == y + x by {
        FlatMapWithout(f, a, 0);
      }
      assert multiset(FlatMap(f, b)) == y + x by {
        FlatMapWithout(f, b, j);
      }
    }
  }

  /** More input gives more output. */
  lemma {:induction false} FlatMapMonotone<A, B>(f: A -> seq<B>, a: seq<A>, b: seq<A>)
    requires multiset(a) <= multiset(b)
    ensures multiset(FlatMap(f, a)) <= multiset(FlatMap(f, b))
  {
    if a != [] {
      assert a[0] in multiset(a);
      var j :| 0 <= j < |b| && b[j] == a[0];
      assert a == [a[0]] + a[1..];
      RemoveAt(b, j);
      FlatMapMonotone(f, a[1..], b[..j] + b[j + 1..]);
      FlatMapWithout(f, b, j);
    }
  }

  lemma RemoveBoth<T>(a: seq<T>, b: seq<T>, j: nat)
    requires multiset(a) == multiset(b) && a != [] && j < |b| && b[j] == a[0]
    ensures multiset(a[..0] + a[1..]) == multiset(b[..j] + b[j + 1..])
    ensures |a[..0] + a[1..]| < |a|
  {
    RemoveAt(a, 0);
    RemoveAt(b, j);
  }
}
