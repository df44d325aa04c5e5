/** Stable sorting by an order that is given as a function. */
module Sorting {
  function Insert<T>(before: (T, T) -> bool, x: T, sorted: seq<T>): (r: seq<T>)
    ensures |r| == |sorted| + 1
  {
    if sorted == [] || !before(sorted[0], x) then [x] + sorted else [sorted[0]] + Insert(before, x, sorted[1..])
  }

  function Sort<T>(before: (T, T) -> bool, xs: seq<T>): (r: seq<T>)
    ensures |r| == |xs|
  {
    if xs == [] then [] else Insert(before, xs[0], Sort(before, xs[1..]))
  }

  lemma {:induction false} InsertMembers<T>(before: (T, T) -> bool, x: T, sorted: seq<T>, y: T)
    ensures y in Insert(before, x, sorted) <==> y == x || y in sorted
  {
    if sorted != [] && before(sorted[0], x) {
      InsertMembers(before, x, sorted[1..], y);
      assert sorted == [sorted[0]] + sorted[1..];
    }
  }

  /** Sorting neither loses nor adds an element. */
  lemma {:induction false} SortMembers<T>(before: (T, T) -> bool, xs: seq<T>, x: T)
    ensures x in Sort(before, xs) <==> x in xs
  {
    if xs != [] {
      SortMembers(before, xs[1..], x);
      InsertMembers(before, xs[0], Sort(before, xs[1..]), x);
      assert xs == [xs[0]] + xs[1..];
    }
  }

  ghost predicate Transitive<T(!new)>(before: (T, T) -> bool) {
    forall a, b, c :: before(a, b) && before(b, c) ==> before(a, c)
  }

  ghost predicate SortedBy<T>(before: (T, T) -> bool, xs: seq<T>) {
    forall i, k | 0 <= i < k < |xs| :: before(xs[i], xs[k])
  }

  lemma {:induction false} InsertSorted<T(!new)>(before: (T, T) -> bool, x: T, sorted: seq<T>)
    requires Transitive(before) && SortedBy(before, sorted)
    requires forall i | 0 <= i < |sorted| :: before(sorted[i], x) || before(x, sorted[i])
    ensures SortedBy(before, Insert(before, x, sorted))
  {
    if sorted != [] && before(sorted[0], x) {
      var rest := sorted[1..];
      assert forall k | 0 <= k < |rest| :: rest[k] == sorted[k + 1];
      InsertSorted(before, x, rest);
      var r := Insert(before, x, rest);
      forall k | 0 <= k < |r| ensures before(sorted[0], r[k]) {
        InsertMembers(before, x, rest, r[k]);
        assert r[k] in r;
      }
    }
  }

  /** Elements of which any two are comparable end up in order. */
  lemma {:induction false} SortSorted<T(!new)>(before: (T, T) -> bool, xs: seq<T>)
    requires Transitive(before)
    requires forall i, k | 0 <= i < k < |xs| :: before(xs[i], xs[k]) || before(xs[k], xs[i])
    ensures SortedBy(before, Sort(before, xs))
  {
    if xs != [] {
      var rest := xs[1..];
      assert forall k | 0 <= k < |rest| :: rest[k] == xs[k + 1];
      SortSorted(before, rest);
      var s := Sort(before, rest);
      forall i | 0 <= i < |s| ensures before(s[i], xs[0]) || before(xs[0], s[i]) {
        SortMembers(before, rest, s[i]);
        assert s[i] in s;
        var k :| 0 <= k < |rest| && rest[k] == s[i];
        assert xs[k + 1] == s[i];
      }
      InsertSorted(before, xs[0], s);
    }
  }

  lemma {:induction false} InsertKeepsAll<T>(before: (T, T) -> bool, x: T, xs: seq<T>)
    ensures multiset(Insert(before, x, xs)) == multiset([x] + xs)
  {
    if xs != [] && before(xs[0], x) {
      InsertKeepsAll(before, x, xs[1..]);
      assert xs == [xs[0]] + xs[1..];
    }
  }

  /** Sorting loses nothing and invents nothing. */
  lemma {:induction false} SortKeepsAll<T>(before: (T, T) -> bool, xs: seq<T>)
    ensures multiset(Sort(before, xs)) == multiset(xs)
  {
    if xs != [] {
      SortKeepsAll(before, xs[1..]);
      InsertKeepsAll(before, xs[0], Sort(before, xs[1..]));
      assert xs == [xs[0]] + xs[1..];
    }
  }
}
