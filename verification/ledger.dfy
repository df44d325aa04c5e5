/** What a run of rollbacks adds up to, given what each of them does to the counters and to the blacklist. */
module Ledger {
  import opened Numbers

  const THRESHOLD: nat := 3

  /** What the counter file and the blacklist file say. */
  datatype Book = Book(counts: string -> nat, banned: set<string>)

  /** One rollback: whether it was counted, and the books before and after it. */
  datatype Entry = Entry(version: string, counted: bool, before: Book, after: Book)

  ghost predicate SameBook(a: Book, b: Book) {
    a.banned == b.banned && forall w :: a.counts(w) == b.counts(w)
  }

  /** One more rollback of this version at most, and the version banned only if there have been enough. */
  ghost predicate Fair(e: Entry) {
    && (forall w :: e.after.counts(w) ==
          if e.counted && w == e.version then Min(e.before.counts(w) + 1, U32_MAX) else e.before.counts(w))
    && (|| e.after.banned == e.before.banned
        || (e.after.banned == e.before.banned + {e.version} && e.after.counts(e.version) >= THRESHOLD))
  }

  ghost predicate Empty(b: Book) {
    b.banned == {} && forall w :: b.counts(w) == 0
  }

  /** Each rollback starts from the books that the one before it left; the first one from empty books. */
  ghost predicate Kept(es: seq<Entry>) {
    && (forall i | 0 <= i < |es| :: Fair(es[i]))
    && (es != [] ==> Empty(es[0].before))
    && (forall i | 0 < i < |es| :: SameBook(es[i].before, es[i - 1].after))
  }

  /** How many of the first `n` rollbacks of this version were counted. */
  function CountOf(es: seq<Entry>, version: string, n: nat): nat
    requires n <= |es|
  {
    if n == 0 then 0
    else CountOf(es, version, n - 1) + (if es[n - 1].version == version && es[n - 1].counted then 1 else 0)
  }

  /** Every stored count is the number of counted rollbacks, up to the largest 32-bit number. */
  lemma {:induction false} CountsAddUp(es: seq<Entry>, n: nat, version: string)
    requires Kept(es) && n < |es|
    ensures es[n].after.counts(version) == Min(CountOf(es, version, n + 1), U32_MAX)
  {
    assert Fair(es[n]);
    if n > 0 { CountsAddUp(es, n - 1, version); } else { assert CountOf(es, version, 0) == 0; }
  }

  lemma {:induction false} CountGrows(es: seq<Entry>, version: string, i: nat, n: nat)
    requires i <= n <= |es|
    ensures CountOf(es, version, i) <= CountOf(es, version, n)
  {
    if i < n { CountGrows(es, version, i, n - 1); }
  }

  lemma CountsNeverFall(es: seq<Entry>, i: nat, n: nat, version: string)
    requires Kept(es) && i <= n < |es|
    ensures es[i].after.counts(version) <= es[n].after.counts(version)
  {
    CountsAddUp(es, i, version);
    CountsAddUp(es, n, version);
    CountGrows(es, version, i + 1, n + 1);
  }

  lemma {:induction false} BannedForever(es: seq<Entry>, i: nat, n: nat)
    requires Kept(es) && i <= n < |es|
    ensures es[i].after.banned <= es[n].after.banned
  {
    if i < n {
      BannedForever(es, i, n - 1);
      assert Fair(es[n]);
    }
  }

  lemma {:induction false} BannedMeansThree(es: seq<Entry>, n: nat, version: string)
    requires Kept(es) && n < |es| && version in es[n].after.banned
    ensures CountOf(es, version, n + 1) >= THRESHOLD
  {
    assert Fair(es[n]);
    CountsAddUp(es, n, version);
    if n > 0 && version in es[n - 1].after.banned {
      BannedMeansThree(es, n - 1, version);
      CountGrows(es, version, n, n + 1);
    }
  }
}
