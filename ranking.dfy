/** `collections.Counter(xs).most_common(n)` as counter.py uses it: a tally
    of occurrences kept in first-insertion order, sorted by descending count
    with ties left in that order, and cut to the first `n` pairs. */
module Ranking {

  /** One `(element, count)` pair of a counter. */
  type Entry<T> = (T, nat)

  /** Index of the first occurrence of `x` in `xs`; `|xs|` when absent. */
  function First<T(==)>(xs: seq<T>, x: T): (k: nat)
    ensures k <= |xs|
    ensures k < |xs| <==> x in xs
    ensures k < |xs| ==> xs[k] == x && forall j :: 0 <= j < k ==> xs[j] != x
  {
    if xs == [] then 0 else if xs[0] == x then 0 else 1 + First(xs[1..], x)
  }

  /** Appending an element does not move the first occurrence of anything
      already present, and puts a new element's first occurrence at the
      end. */
  lemma FirstSnoc<T>(xs: seq<T>, y: T, x: T)
    ensures x in xs ==> First(xs + [y], x) == First(xs, x)
    ensures x !in xs && x == y ==> First(xs + [y], x) == |xs|
  {
    var k := First(xs + [y], x);
    if x in xs {
      var i := First(xs, x);
      assert (xs + [y])[i] == x;
      assert k <= i;
      assert xs[k] == x;
    }
  }

  /** `counter[x] += 1`, where a missing `x` starts at 0 and is appended. */
  function Bump<T(==)>(items: seq<Entry<T>>, x: T): seq<Entry<T>>
  {
    if items == [] then [(x, 1)]
    else if items[0].0 == x then [(x, items[0].1 + 1)] + items[1..]
    else [items[0]] + Bump(items[1..], x)
  }

  lemma {:induction false} BumpHit<T>(items: seq<Entry<T>>, x: T, k: nat)
    requires k < |items| && items[k].0 == x
    requires forall i :: 0 <= i < k ==> items[i].0 != x
    ensures Bump(items, x) == items[k := (x, items[k].1 + 1)]
  {
    if k > 0 {
      BumpHit(items[1..], x, k - 1);
    }
  }

  lemma {:induction false} BumpMiss<T>(items: seq<Entry<T>>, x: T)
    requires forall i :: 0 <= i < |items| ==> items[i].0 != x
    ensures Bump(items, x) == items + [(x, 1)]
  {
    if items != [] {
      BumpMiss(items[1..], x);
    }
  }

  /** `collections.Counter(xs)`, seen as its list of items: the elements
      counted one by one from the left. */
  function Tally<T(==)>(xs: seq<T>): (r: seq<Entry<T>>)
    ensures IsTallyOf(r, xs)
  {
    if xs == [] then []
    else
      var init, y := xs[..|xs| - 1], xs[|xs| - 1];
      assert xs == init + [y];
      var t := Tally(init);
      if y in init then
        BumpPresent(t, init, y);
        Bump(t, y)
      else
        BumpAbsent(t, init, y);
        Bump(t, y)
  }

  /** What a counter promises: one pair per distinct element, each count
      the exact number of occurrences, pairs in order of first occurrence. */
  ghost predicate IsTallyOf<T>(items: seq<Entry<T>>, xs: seq<T>)
  {
    ExactCounts(items, xs) && Covers(items, xs) && InFirstOccurrenceOrder(items, xs)
  }

  ghost predicate ExactCounts<T>(items: seq<Entry<T>>, xs: seq<T>)
  {
    forall i :: 0 <= i < |items| ==> items[i].0 in xs && items[i].1 == multiset(xs)[items[i].0]
  }

  ghost predicate Covers<T>(items: seq<Entry<T>>, xs: seq<T>)
  {
    forall x :: x in xs ==> exists i :: 0 <= i < |items| && items[i].0 == x
  }

  ghost predicate InFirstOccurrenceOrder<T>(items: seq<Entry<T>>, xs: seq<T>)
  {
    forall i, j :: 0 <= i < j < |items| ==> First(xs, items[i].0) < First(xs, items[j].0)
  }

  /** Pairs in strict first-occurrence order have distinct elements. */
  lemma OrderedDistinct<T>(t: seq<Entry<T>>, xs: seq<T>)
    requires InFirstOccurrenceOrder(t, xs)
    ensures forall i, j :: 0 <= i < |t| && 0 <= j < |t| && i != j ==> t[i].0 != t[j].0
  {
  }

  /** Counting one more occurrence of an element already counted. */
  lemma BumpPresent<T>(t: seq<Entry<T>>, init: seq<T>, y: T)
    requires IsTallyOf(t, init) && y in init
    ensures IsTallyOf(Bump(t, y), init + [y])
  {
    var k :| 0 <= k < |t| && t[k].0 == y;
    OrderedDistinct(t, init);
    BumpHit(t, y, k);
    var r := Bump(t, y);
    HitCounts(t, init, y, k);
    SameKeys(t, r, init, y);
  }

  lemma HitCounts<T>(t: seq<Entry<T>>, init: seq<T>, y: T, k: nat)
    requires ExactCounts(t, init)
    requires k < |t| && t[k].0 == y
    requires forall i :: 0 <= i < |t| && i != k ==> t[i].0 != y
    ensures ExactCounts(t[k := (y, t[k].1 + 1)], init + [y])
  {
    assert multiset(init + [y]) == multiset(init) + multiset{y};
  }

  /** A counter whose pairs keep their elements still covers the input and
      keeps its order after one more occurrence of a counted element. */
  lemma SameKeys<T>(t: seq<Entry<T>>, r: seq<Entry<T>>, init: seq<T>, y: T)
    requires Covers(t, init) && InFirstOccurrenceOrder(t, init)
    requires forall i :: 0 <= i < |t| ==> t[i].0 in init
    requires y in init
    requires |r| == |t| && forall i :: 0 <= i < |r| ==> r[i].0 == t[i].0
    ensures Covers(r, init + [y]) && InFirstOccurrenceOrder(r, init + [y])
  {
    var xs := init + [y];
    forall x | x in xs ensures exists i :: 0 <= i < |r| && r[i].0 == x {
      assert x in init;
      var i :| 0 <= i < |t| && t[i].0 == x;
      assert r[i].0 == x;
    }
    forall i, j | 0 <= i < j < |r| ensures First(xs, r[i].0) < First(xs, r[j].0) {
      FirstSnoc(init, y, r[i].0);
      FirstSnoc(init, y, r[j].0);
      assert First(init, t[i].0) < First(init, t[j].0);
    }
  }

  /** Counting the first occurrence of a new element. */
  lemma BumpAbsent<T>(t: seq<Entry<T>>, init: seq<T>, y: T)
    requires IsTallyOf(t, init) && y !in init
    ensures IsTallyOf(Bump(t, y), init + [y])
  {
    BumpMiss(t, y);
    MissCounts(t, init, y);
    MissCovers(t, init, y);
    MissOrder(t, init, y);
  }

  lemma MissCounts<T>(t: seq<Entry<T>>, init: seq<T>, y: T)
    requires ExactCounts(t, init) && y !in init
    ensures ExactCounts(t + [(y, 1)], init + [y])
  {
    assert multiset(init + [y]) == multiset(init) + multiset{y};
  }

  lemma MissCovers<T>(t: seq<Entry<T>>, init: seq<T>, y: T)
    requires Covers(t, init)
    ensures Covers(t + [(y, 1)], init + [y])
  {
    var r := t + [(y, 1)];
    forall x | x in init + [y] ensures exists i :: 0 <= i < |r| && r[i].0 == x {
      if x == y {
        assert r[|t|].0 == x;
      } else {
        assert x in init;
        var i :| 0 <= i < |t| && t[i].0 == x;
        assert r[i].0 == x;
      }
    }
  }

  lemma MissOrder<T>(t: seq<Entry<T>>, init: seq<T>, y: T)
    requires InFirstOccurrenceOrder(t, init) && y !in init
    requires forall i :: 0 <= i < |t| ==> t[i].0 in init
    ensures InFirstOccurrenceOrder(t + [(y, 1)], init + [y])
  {
    var r, xs := t + [(y, 1)], init + [y];
    FirstSnoc(init, y, y);
    forall i, j | 0 <= i < j < |r| ensures First(xs, r[i].0) < First(xs, r[j].0) {
      FirstSnoc(init, y, r[i].0);
      FirstSnoc(init, y, r[j].0);
      if j < |t| {
        assert First(init, t[i].0) < First(init, t[j].0);
      }
    }
  }

  /** `counter[x]`: the count paired with `x`, or 0 when `x` is missing. */
  function Get<T(==)>(items: seq<Entry<T>>, x: T): nat
  {
    if items == [] then 0 else if items[0].0 == x then items[0].1 else Get(items[1..], x)
  }

  /** Looking up an element in a counter gives its number of occurrences. */
  lemma TallyGet<T>(xs: seq<T>, x: T)
    ensures Get(Tally(xs), x) == multiset(xs)[x]
  {
    GetTally(Tally(xs), xs, x);
  }

  lemma {:induction false} GetTally<T>(items: seq<Entry<T>>, xs: seq<T>, x: T)
    requires forall i :: 0 <= i < |items| ==> items[i].0 in xs && items[i].1 == multiset(xs)[items[i].0]
    requires x !in xs || exists i :: 0 <= i < |items| && items[i].0 == x
    ensures Get(items, x) == multiset(xs)[x]
  {
    if items != [] && items[0].0 != x {
      if x in xs {
        var i :| 0 <= i < |items| && items[i].0 == x;
        assert items[1..][i - 1].0 == x;
      }
      GetTally(items[1..], xs, x);
    }
  }

  /** Counting is additive: the counter of a concatenation is the sum of
      the counters of its parts. */
  lemma TallyAdditive<T>(xs: seq<T>, ys: seq<T>, x: T)
    ensures Get(Tally(xs + ys), x) == Get(Tally(xs), x) + Get(Tally(ys), x)
  {
    TallyGet(xs + ys, x);
    TallyGet(xs, x);
    TallyGet(ys, x);
  }

  /** Insert a pair before the first pair whose count is not larger. */
  function InsertByCount<T>(e: Entry<T>, sorted: seq<Entry<T>>): seq<Entry<T>>
  {
    if sorted == [] || sorted[0].1 <= e.1 then [e] + sorted
    else [sorted[0]] + InsertByCount(e, sorted[1..])
  }

  /** `sorted(items, key=count, reverse=True)`: Python's sort is stable, so
      pairs with equal counts keep their relative order. */
  function SortByCount<T>(items: seq<Entry<T>>): seq<Entry<T>>
  {
    if items == [] then [] else InsertByCount(items[0], SortByCount(items[1..]))
  }

  /** `a` comes before `b` in a ranking of the elements of `xs`: a higher
      count, or the same count and an earlier first occurrence. */
  ghost predicate RankedBefore<T>(xs: seq<T>, a: Entry<T>, b: Entry<T>)
  {
    a.1 > b.1 || (a.1 == b.1 && First(xs, a.0) < First(xs, b.0))
  }

  ghost predicate Ranked<T>(xs: seq<T>, s: seq<Entry<T>>)
  {
    forall i, j :: 0 <= i < j < |s| ==> RankedBefore(xs, s[i], s[j])
  }

  /** A pair ranked before every pair of a ranked list can go in front. */
  lemma RankedCons<T>(xs: seq<T>, a: Entry<T>, s: seq<Entry<T>>)
    requires Ranked(xs, s)
    requires forall b :: b in s ==> RankedBefore(xs, a, b)
    ensures Ranked(xs, [a] + s)
  {
    var r := [a] + s;
    forall i, j | 0 <= i < j < |r| ensures RankedBefore(xs, r[i], r[j]) {
      if i == 0 {
        assert r[j] in s;
      } else {
        assert r[i] == s[i - 1] && r[j] == s[j - 1];
      }
    }
  }

  /** The head of a ranked list is ranked before the rest, which is ranked. */
  lemma RankedTail<T>(xs: seq<T>, s: seq<Entry<T>>)
    requires Ranked(xs, s) && s != []
    ensures Ranked(xs, s[1..])
    ensures forall b :: b in s[1..] ==> RankedBefore(xs, s[0], b)
  {
    forall i, j | 0 <= i < j < |s[1..]| ensures RankedBefore(xs, s[1..][i], s[1..][j]) {
      assert s[1..][i] == s[i + 1] && s[1..][j] == s[j + 1];
    }
    forall b | b in s[1..] ensures RankedBefore(xs, s[0], b) {
      var k :| 0 <= k < |s[1..]| && s[1..][k] == b;
      assert s[k + 1] == b;
    }
  }

  lemma {:induction false} InsertPermutes<T>(e: Entry<T>, s: seq<Entry<T>>)
    ensures multiset(InsertByCount(e, s)) == multiset(s) + multiset{e}
  {
    if s != [] && s[0].1 > e.1 {
      InsertPermutes(e, s[1..]);
      assert s == [s[0]] + s[1..];
    }
  }

  lemma {:induction false} InsertRanked<T>(xs: seq<T>, e: Entry<T>, s: seq<Entry<T>>)
    requires Ranked(xs, s)
    requires forall b :: b in s ==> First(xs, e.0) < First(xs, b.0)
    ensures Ranked(xs, InsertByCount(e, s))
  {
    if s == [] {
    } else if s[0].1 <= e.1 {
      RankedTail(xs, s);
      assert forall b :: b in s ==> b == s[0] || b in s[1..];
      RankedCons(xs, e, s);
    } else {
      RankedTail(xs, s);
      InsertRanked(xs, e, s[1..]);
      var tail := InsertByCount(e, s[1..]);
      InsertPermutes(e, s[1..]);
      forall b | b in tail ensures RankedBefore(xs, s[0], b) {
        assert b in multiset(tail);
      }
      RankedCons(xs, s[0], tail);
    }
  }

  /** Members are kept by a permutation. */
  lemma PermutationMembers<T>(a: seq<T>, b: seq<T>)
    requires multiset(a) == multiset(b)
    ensures forall x :: x in a <==> x in b
  {
    forall x ensures x in a <==> x in b {
      assert x in a <==> x in multiset(a);
      assert x in b <==> x in multiset(b);
    }
  }

  /** Sorting by count ranks the pairs and keeps them all. */
  lemma {:induction false} SortRanked<T>(xs: seq<T>, items: seq<Entry<T>>)
    requires forall i, j :: 0 <= i < j < |items| ==> First(xs, items[i].0) < First(xs, items[j].0)
    ensures multiset(SortByCount(items)) == multiset(items)
    ensures Ranked(xs, SortByCount(items))
  {
    if items != [] {
      var rest := SortByCount(items[1..]);
      SortRanked(xs, items[1..]);
      PermutationMembers(rest, items[1..]);
      forall b | b in items[1..] ensures First(xs, items[0].0) < First(xs, b.0) {
        var k :| 0 <= k < |items[1..]| && items[1..][k] == b;
        assert items[k + 1] == b;
      }
      InsertRanked(xs, items[0], rest);
      InsertPermutes(items[0], rest);
      assert items == [items[0]] + items[1..];
    }
  }

  /** What `most_common(n)` promises: nothing when `n` is not positive,
      otherwise at most `n` pairs; distinct elements of `xs`, each with its
      exact count; each pair ranked before the next (a higher count, or the
      same count and an earlier first occurrence); every element left out
      ranked after every element kept; and every element kept when fewer
      than `n` pairs come back. */
  ghost predicate IsMostCommon<T>(xs: seq<T>, n: int, r: seq<Entry<T>>)
  {
    && (n <= 0 ==> r == [])
    && (n > 0 ==> |r| <= n)
    && ExactCounts(r, xs)
    && (forall i, j :: 0 <= i < j < |r| ==> r[i].0 != r[j].0 && RankedBefore(xs, r[i], r[j]))
    && (forall x, i :: x in xs && 0 <= i < |r| && (forall k :: 0 <= k < |r| ==> r[k].0 != x)
          ==> RankedBefore(xs, r[i], (x, multiset(xs)[x])))
    && (|r| < n ==> Covers(r, xs))
  }

  /** `Counter(xs).most_common(n)`: the sorted counter cut to its first `n`
      pairs; none at all when `n` is not positive. */
  function MostCommon<T(==)>(xs: seq<T>, n: int): (r: seq<Entry<T>>)
    ensures IsMostCommon(xs, n, r)
  {
    var sorted := SortByCount(Tally(xs));
    SortedTally(xs);
    var r := if n <= 0 then [] else if n < |sorted| then sorted[..n] else sorted;
    assert r == sorted[..|r|];
    RankedPrefix(xs, sorted, |r|);
    r
  }

  /** The specification of `most_common(n)` leaves no choice: `MostCommon`
      is the only list that meets it. */
  lemma MostCommonUnique<T>(xs: seq<T>, n: int, r: seq<Entry<T>>)
    requires IsMostCommon(xs, n, r)
    ensures r == MostCommon(xs, n)
  {
    var s := SortByCount(Tally(xs));
    SortedTally(xs);
    RankedOrder(xs, s);
    AgreesWithRanking(xs, n, r, s, |r|);
    CoveredLength(xs, n, r, s);
    if n <= 0 {
    } else if n < |s| {
      assert |r| == n;
    } else {
      assert |r| == |s|;
      assert r == s;
    }
  }

  /** A list meeting the specification that stops short of `n` pairs holds
      every element: it is the whole ranking. */
  lemma CoveredLength<T>(xs: seq<T>, n: int, r: seq<Entry<T>>, s: seq<Entry<T>>)
    requires IsMostCommon(xs, n, r)
    requires ExactCounts(s, xs)
    requires forall a, b :: 0 <= a < b < |s| ==> s[a].0 != s[b].0
    requires |r| <= |s| && r == s[..|r|]
    ensures |r| < n ==> |r| == |s|
  {
    if |r| < n && |r| < |s| {
      PrefixMisses(xs, r, s);
      assert false;
    }
  }

  /** A proper prefix of a counter with distinct elements misses the
      element that comes next. */
  lemma PrefixMisses<T>(xs: seq<T>, r: seq<Entry<T>>, s: seq<Entry<T>>)
    requires ExactCounts(s, xs)
    requires forall a, b :: 0 <= a < b < |s| ==> s[a].0 != s[b].0
    requires |r| < |s| && r == s[..|r|]
    ensures s[|r|].0 in xs && forall k :: 0 <= k < |r| ==> r[k].0 != s[|r|].0
  {
  }

  /** A list meeting the specification agrees with the full ranking on its
      first `i` pairs. */
  lemma {:induction false} AgreesWithRanking<T>(xs: seq<T>, n: int, r: seq<Entry<T>>, s: seq<Entry<T>>, i: nat)
    requires IsMostCommon(xs, n, r)
    requires Ranked(xs, s) && ExactCounts(s, xs) && Covers(s, xs)
    requires forall a, b :: 0 <= a < b < |s| ==> s[a].0 != s[b].0
    requires i <= |r|
    ensures i <= |s| && r[..i] == s[..i]
  {
    if i > 0 {
      AgreesWithRanking(xs, n, r, s, i - 1);
      NextAgrees(xs, n, r, s, i - 1);
      assert r[..i] == r[..i - 1] + [r[i - 1]];
      assert s[..i] == s[..i - 1] + [s[i - 1]];
    }
  }

  /** The next pair of a list meeting the specification is the next pair of
      the full ranking: neither can be ranked before the other. */
  lemma NextAgrees<T>(xs: seq<T>, n: int, r: seq<Entry<T>>, s: seq<Entry<T>>, i: nat)
    requires IsMostCommon(xs, n, r)
    requires Ranked(xs, s) && ExactCounts(s, xs) && Covers(s, xs)
    requires forall a, b :: 0 <= a < b < |s| ==> s[a].0 != s[b].0
    requires i < |r| && i <= |s| && r[..i] == s[..i]
    ensures i < |s| && r[i] == s[i]
  {
    assert forall k :: 0 <= k < i ==> r[k] == s[k] by {
      forall k | 0 <= k < i ensures r[k] == s[k] {
        assert r[..i][k] == s[..i][k];
      }
    }
    var j :| 0 <= j < |s| && s[j].0 == r[i].0;
    assert j >= i;
    assert s[j] == r[i];
    assert j == i || RankedBefore(xs, s[i], r[i]);
    NoLaterThan(xs, n, r, s, i);
  }

  /** The next pair of a list meeting the specification is ranked no later
      than the next pair of the full ranking. */
  lemma NoLaterThan<T>(xs: seq<T>, n: int, r: seq<Entry<T>>, s: seq<Entry<T>>, i: nat)
    requires IsMostCommon(xs, n, r)
    requires ExactCounts(s, xs)
    requires forall a, b :: 0 <= a < b < |s| ==> s[a].0 != s[b].0
    requires i < |r| && i < |s| && forall k :: 0 <= k < i ==> r[k] == s[k]
    ensures r[i] == s[i] || RankedBefore(xs, r[i], s[i])
  {
    var y := s[i].0;
    if k :| 0 <= k < |r| && r[k].0 == y {
      assert k >= i;
      assert r[k] == s[i];
    }
  }

  /** The sorted counter: ranked, exact and covering the input. */
  lemma SortedTally<T>(xs: seq<T>)
    ensures var s := SortByCount(Tally(xs));
      Ranked(xs, s) && ExactCounts(s, xs) && Covers(s, xs)
  {
    var t := Tally(xs);
    var s := SortByCount(t);
    SortRanked(xs, t);
    forall i | 0 <= i < |s| ensures s[i].0 in xs && s[i].1 == multiset(xs)[s[i].0] {
      assert s[i] in multiset(t);
    }
    forall x | x in xs ensures exists m :: 0 <= m < |s| && s[m].0 == x {
      var k :| 0 <= k < |t| && t[k].0 == x;
      assert t[k] in multiset(s);
    }
  }

  /** The first `m` pairs of a ranked, exact and covering counter. */
  lemma RankedPrefix<T>(xs: seq<T>, s: seq<Entry<T>>, m: nat)
    requires Ranked(xs, s) && ExactCounts(s, xs) && Covers(s, xs)
    requires m <= |s|
    ensures var r := s[..m];
      && ExactCounts(r, xs)
      && (forall i, j :: 0 <= i < j < |r| ==> r[i].0 != r[j].0 && RankedBefore(xs, r[i], r[j]))
      && (forall x, i :: x in xs && 0 <= i < |r| && (forall k :: 0 <= k < |r| ==> r[k].0 != x)
            ==> RankedBefore(xs, r[i], (x, multiset(xs)[x])))
      && (m == |s| ==> Covers(r, xs))
  {
    RankedOrder(xs, s);
    RankedDominates(xs, s, m);
    assert forall i :: 0 <= i < m ==> s[..m][i] == s[i];
  }

  /** In a ranked, exact counter the elements are distinct, the counts
      non-increasing and equal counts in first-occurrence order. */
  lemma RankedOrder<T>(xs: seq<T>, s: seq<Entry<T>>)
    requires Ranked(xs, s) && ExactCounts(s, xs)
    ensures forall i, j :: 0 <= i < j < |s| ==> s[i].0 != s[j].0 && s[i].1 >= s[j].1
  {
    forall i, j | 0 <= i < j < |s| ensures s[i].0 != s[j].0 && s[i].1 >= s[j].1 {
      assert RankedBefore(xs, s[i], s[j]);
    }
  }

  /** An element missing from the first `m` pairs of a ranked, covering
      counter is ranked after every element among them. */
  lemma RankedDominates<T>(xs: seq<T>, s: seq<Entry<T>>, m: nat)
    requires Ranked(xs, s) && ExactCounts(s, xs) && Covers(s, xs)
    requires m <= |s|
    ensures forall x, i :: x in xs && 0 <= i < m && (forall k :: 0 <= k < m ==> s[k].0 != x)
                        ==> RankedBefore(xs, s[i], (x, multiset(xs)[x]))
  {
    forall x, i | x in xs && 0 <= i < m && (forall k :: 0 <= k < m ==> s[k].0 != x)
      ensures RankedBefore(xs, s[i], (x, multiset(xs)[x]))
    {
      var j :| 0 <= j < |s| && s[j].0 == x;
      assert RankedBefore(xs, s[i], s[j]);
    }
  }
}
