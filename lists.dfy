/** List helpers used by the analysis pipeline: `flat` of counter.py, and the
    filtering and mapping that its list comprehensions perform. */
module Lists {

  /** Total length of a list of lists, counted from the front. */
  function SumLengths<T>(xss: seq<seq<T>>): nat
  {
    if xss == [] then 0 else |xss[0]| + SumLengths(xss[1..])
  }

  lemma {:induction false} SumLengthsSnoc<T>(xss: seq<seq<T>>, xs: seq<T>)
    ensures SumLengths(xss + [xs]) == SumLengths(xss) + |xs|
  {
    if xss != [] {
      assert (xss + [xs])[1..] == xss[1..] + [xs];
      SumLengthsSnoc(xss[1..], xs);
    }
  }

  /** `flat(_list)`: `sum(_list, [])`, a left fold of list concatenation
      starting from the empty list. Its length is the sum of the lengths. */
  function Flat<T>(xss: seq<seq<T>>): (r: seq<T>)
    ensures |r| == SumLengths(xss)
  {
    if xss == [] then []
    else
      SumLengthsSnoc(xss[..|xss| - 1], xss[|xss| - 1]);
      assert xss[..|xss| - 1] + [xss[|xss| - 1]] == xss;
      Flat(xss[..|xss| - 1]) + xss[|xss| - 1]
  }

  /** Flattening distributes over concatenation of the outer list. */
  lemma {:induction false} FlatAppend<T>(a: seq<seq<T>>, b: seq<seq<T>>)
    ensures Flat(a + b) == Flat(a) + Flat(b)
  {
    if b == [] {
      assert a + b == a;
    } else {
      var b' := b[..|b| - 1];
      assert (a + b)[..|a + b| - 1] == a + b';
      assert (a + b)[|a + b| - 1] == b[|b| - 1];
      FlatAppend(a, b');
    }
  }

  /** The front view of `Flat`: the first inner list comes first. */
  lemma {:induction false} FlatCons<T>(xs: seq<T>, xss: seq<seq<T>>)
    ensures Flat([xs] + xss) == xs + Flat(xss)
  {
    FlatAppend([xs], xss);
    assert [xs][..0] == [];
  }

  /** Flattening a single list gives that list. */
  lemma FlatSingle<T>(xs: seq<T>)
    ensures Flat([xs]) == xs
  {
    FlatCons(xs, []);
    assert xs + [] == xs;
  }

  /** An element occurs in the flattened list exactly when it occurs in one of
      the inner lists. */
  lemma {:induction false} FlatMember<T>(xss: seq<seq<T>>, x: T)
    ensures x in Flat(xss) <==> exists i :: 0 <= i < |xss| && x in xss[i]
  {
    if xss != [] {
      var init := xss[..|xss| - 1];
      FlatMember(init, x);
      assert forall i :: 0 <= i < |init| ==> init[i] == xss[i];
      if x in Flat(xss) && x !in xss[|xss| - 1] {
        var i :| 0 <= i < |init| && x in init[i];
        assert x in xss[i];
      }
      if exists i :: 0 <= i < |xss| && x in xss[i] {
        var i :| 0 <= i < |xss| && x in xss[i];
        if i < |init| {
          assert x in init[i];
        }
      }
    }
  }

  /** A list comprehension `[x for x in xs if p(x)]`. */
  function Filter<T>(p: T -> bool, xs: seq<T>): (r: seq<T>)
    ensures |r| <= |xs|
    ensures forall i :: 0 <= i < |r| ==> p(r[i]) && r[i] in xs
  {
    if xs == [] then []
    else (if p(xs[0]) then [xs[0]] else []) + Filter(p, xs[1..])
  }

  /** What `Filter` keeps, counted: every occurrence of an element that meets
      the predicate, and nothing else. */
  lemma {:induction false} FilterCount<T>(p: T -> bool, xs: seq<T>, x: T)
    ensures multiset(Filter(p, xs))[x] == if p(x) then multiset(xs)[x] else 0
  {
    if xs != [] {
      assert xs == [xs[0]] + xs[1..];
      FilterCount(p, xs[1..], x);
    }
  }

  /** Filtering distributes over concatenation, which together with the
      one-element case says that it keeps the order of what it keeps. */
  lemma {:induction false} FilterAppend<T>(p: T -> bool, a: seq<T>, b: seq<T>)
    ensures Filter(p, a + b) == Filter(p, a) + Filter(p, b)
  {
    if a == [] {
      assert a + b == b;
    } else {
      assert (a + b)[0] == a[0];
      assert (a + b)[1..] == a[1..] + b;
      FilterAppend(p, a[1..], b);
    }
  }

  /** An element survives `Filter` exactly when it is in the list and
      meets the predicate. */
  lemma FilterMembers<T>(p: T -> bool, xs: seq<T>)
    ensures forall x :: x in Filter(p, xs) <==> x in xs && p(x)
  {
    forall x ensures x in Filter(p, xs) <==> x in xs && p(x) {
      FilterCount(p, xs, x);
      assert x in Filter(p, xs) <==> x in multiset(Filter(p, xs));
      assert x in xs <==> x in multiset(xs);
    }
  }

  /** Filtering with a predicate that no element meets gives the empty list. */
  lemma {:induction false} FilterNone<T>(p: T -> bool, xs: seq<T>)
    requires forall i :: 0 <= i < |xs| ==> !p(xs[i])
    ensures Filter(p, xs) == []
  {
    if xs != [] {
      FilterNone(p, xs[1..]);
    }
  }

  /** A filter by a weaker predicate first does not change a filter by a
      stronger one. */
  lemma {:induction false} FilterNarrow<T>(p: T -> bool, q: T -> bool, xs: seq<T>)
    requires forall x :: p(x) ==> q(x)
    ensures Filter(p, Filter(q, xs)) == Filter(p, xs)
  {
    if xs != [] {
      FilterAppend(p, if q(xs[0]) then [xs[0]] else [], Filter(q, xs[1..]));
      FilterNarrow(p, q, xs[1..]);
    }
  }

  /** A list comprehension `[f(x) for x in xs]`. */
  function MapSeq<A, B>(f: A -> B, xs: seq<A>): (r: seq<B>)
    ensures |r| == |xs|
    ensures forall i :: 0 <= i < |xs| ==> r[i] == f(xs[i])
  {
    seq(|xs|, i requires 0 <= i < |xs| => f(xs[i]))
  }

  lemma MapAppend<A, B>(f: A -> B, a: seq<A>, b: seq<A>)
    ensures MapSeq(f, a + b) == MapSeq(f, a) + MapSeq(f, b)
  {
  }

  /** `flat([f(x) for x in xs])` holds exactly what some `f(x)` holds. */
  lemma FlatMapMembers<A, B>(f: A -> seq<B>, xs: seq<A>)
    ensures forall y :: y in Flat(MapSeq(f, xs)) <==> exists x :: x in xs && y in f(x)
  {
    var m := MapSeq(f, xs);
    forall y ensures y in Flat(m) <==> exists x :: x in xs && y in f(x) {
      FlatMember(m, y);
      if y in Flat(m) {
        var i :| 0 <= i < |m| && y in m[i];
        assert xs[i] in xs && y in f(xs[i]);
      }
      if exists x :: x in xs && y in f(x) {
        var x :| x in xs && y in f(x);
        var i :| 0 <= i < |xs| && xs[i] == x;
        assert y in m[i];
      }
    }
  }

  /** How often `y` occurs in `f(x)`, summed over the elements `x` of `xs`. */
  ghost function CountIn<A, B>(f: A -> seq<B>, xs: seq<A>, y: B): nat
  {
    if xs == [] then 0 else multiset(f(xs[0]))[y] + CountIn(f, xs[1..], y)
  }

  /** `flat([f(x) for x in xs])` keeps every occurrence: `y` occurs in it as
      often as it occurs in all the `f(x)` together. */
  lemma {:induction false} FlatMapCount<A, B>(f: A -> seq<B>, xs: seq<A>, y: B)
    ensures multiset(Flat(MapSeq(f, xs)))[y] == CountIn(f, xs, y)
  {
    if xs != [] {
      assert MapSeq(f, xs) == [f(xs[0])] + MapSeq(f, xs[1..]);
      FlatCons(f(xs[0]), MapSeq(f, xs[1..]));
      FlatMapCount(f, xs[1..], y);
    }
  }

  /** `FlatMapCount` for every element at once. */
  lemma FlatMapCounts<A, B>(f: A -> seq<B>, xs: seq<A>)
    ensures forall y :: multiset(Flat(MapSeq(f, xs)))[y] == CountIn(f, xs, y)
  {
    forall y ensures multiset(Flat(MapSeq(f, xs)))[y] == CountIn(f, xs, y) {
      FlatMapCount(f, xs, y);
    }
  }

  /** `[y for y in flat([f(x) for x in xs]) if p(y)]` keeps every occurrence
      of an element that passes the test, and nothing else. */
  lemma FilterFlatMapCounts<A, B>(p: B -> bool, f: A -> seq<B>, xs: seq<A>)
    ensures forall y :: multiset(Filter(p, Flat(MapSeq(f, xs))))[y] == if p(y) then CountIn(f, xs, y) else 0
  {
    forall y ensures multiset(Filter(p, Flat(MapSeq(f, xs))))[y] == if p(y) then CountIn(f, xs, y) else 0 {
      FilterCount(p, Flat(MapSeq(f, xs)), y);
      FlatMapCount(f, xs, y);
    }
  }

  /** `flat([f(x) for x in xs])`: exactly what the `f(x)` hold, every
      occurrence kept. */
  function FlatMap<A(!new), B(!new)>(f: A -> seq<B>, xs: seq<A>): (r: seq<B>)
    ensures forall y :: y in r <==> exists x :: x in xs && y in f(x)
    ensures forall y :: multiset(r)[y] == CountIn(f, xs, y)
  {
    FlatMapMembers(f, xs);
    FlatMapCounts(f, xs);
    Flat(MapSeq(f, xs))
  }
}
