/** Canonical JSON: recursively sorted keys, printed compactly. Every signature and MAC is taken over it. */
module Canonical {
  import opened Wrappers
  import opened Text
  import opened Json
  import opened Sorting
  import JsonRoundTrip

  /** HMAC-SHA-256 in hexadecimal, as a function of key and message. */
  type Mac = (bytes, bytes) -> string

  /** Two different texts with the same MAC. */
  predicate Collision(mac: Mac, key: bytes, x: bytes, y: bytes) {
    x != y && mac(key, x) == mac(key, y)
  }

  // ----------------------------------------------------------- operations

  predicate KeyBefore(a: Member, b: Member) {
    Less(a.key, b.key)
  }

  function SortByKey(ms: seq<Member>): seq<Member> {
    Sort(KeyBefore, ms)
  }

  function SortKeys(j: Json): Json
    decreases j, 1
  {
    match j
    case Arr(items) => Arr(SortItems(items))
    case Obj(members) => Obj(SortByKey(SortValues(members)))
    case _ => j
  }

  function SortItems(items: seq<Json>): (r: seq<Json>)
    ensures |r| == |items|
    decreases items, 0
  {
    if items == [] then [] else [SortKeys(items[0])] + SortItems(items[1..])
  }

  function SortValues(ms: seq<Member>): (r: seq<Member>)
    ensures |r| == |ms|
    decreases ms, 0
  {
    if ms == [] then [] else [Member(ms[0].key, SortKeys(ms[0].value))] + SortValues(ms[1..])
  }

  function CanonicalText(j: Json): string {
    ToText(SortKeys(j))
  }

  /** The bytes that are signed or authenticated. */
  function CanonicalBytes(j: Json): bytes {
    Encode(CanonicalText(j))
  }

  // ------------------------------------------------------- what they mean

  /** The keys of an object are distinct, at every depth: what any map guarantees. */
  ghost predicate UniqueKeys(j: Json)
    decreases j
  {
    match j
    case Arr(items) => forall i | 0 <= i < |items| :: UniqueKeys(items[i])
    case Obj(ms) =>
      Distinct(ms) && forall i | 0 <= i < |ms| :: UniqueKeys(ms[i].value)
    case _ => true
  }

  ghost predicate Distinct(ms: seq<Member>) {
    forall i, k | 0 <= i < k < |ms| :: ms[i].key != ms[k].key
  }

  ghost predicate HasKey(ms: seq<Member>, key: string) {
    exists i :: 0 <= i < |ms| && ms[i].key == key
  }

  /** Equal up to the order of object keys, at every depth. */
  ghost predicate SameTree(a: Json, b: Json)
    decreases a
  {
    match (a, b)
    case (Arr(x), Arr(y)) => |x| == |y| && forall i | 0 <= i < |x| :: SameTree(x[i], y[i])
    case (Obj(x), Obj(y)) =>
      && (forall key :: HasKey(x, key) <==> HasKey(y, key))
      && (forall i, k | 0 <= i < |x| && 0 <= k < |y| && x[i].key == y[k].key :: SameTree(x[i].value, y[k].value))
    case _ => a == b
  }

  lemma {:induction false} SameTreeReflexive(j: Json)
    requires UniqueKeys(j)
    ensures SameTree(j, j)
    decreases j
  {
    match j
    case Arr(items) => forall i | 0 <= i < |items| { SameTreeReflexive(items[i]); }
    case Obj(ms) => forall i | 0 <= i < |ms| { SameTreeReflexive(ms[i].value); }
    case _ =>
  }

  function Lookup(ms: seq<Member>, key: string): Option<Json> {
    if ms == [] then None
    else if ms[0].key == key then Some(ms[0].value)
    else Lookup(ms[1..], key)
  }

  // --------------------------------------------------------------- sorting

  ghost predicate Ordered(ms: seq<Member>) {
    forall i, k | 0 <= i < k < |ms| :: Less(ms[i].key, ms[k].key)
  }

  lemma KeysTransitive()
    ensures Transitive(KeyBefore)
  {
    forall a, b, c | KeyBefore(a, b) && KeyBefore(b, c) ensures KeyBefore(a, c) {
      LessTransitive(a.key, b.key, c.key);
    }
  }

  lemma SortByKeyOrder(ms: seq<Member>)
    requires Distinct(ms)
    ensures Ordered(SortByKey(ms))
  {
    KeysTransitive();
    forall i, k | 0 <= i < k < |ms| ensures KeyBefore(ms[i], ms[k]) || KeyBefore(ms[k], ms[i]) {
      LessTotal(ms[i].key, ms[k].key);
    }
    SortSorted(KeyBefore, ms);
    var s := SortByKey(ms);
    forall i, k | 0 <= i < k < |s| ensures Less(s[i].key, s[k].key) { assert KeyBefore(s[i], s[k]); }
  }

  lemma OrderedDistinct(ms: seq<Member>)
    requires Ordered(ms)
    ensures Distinct(ms)
  {
    forall i, k | 0 <= i < k < |ms| ensures ms[i].key != ms[k].key {
      LessIrreflexive(ms[i].key);
    }
  }

  /** Two ordered lists with the same members are the same list. */
  lemma {:induction false} OrderedUnique(x: seq<Member>, y: seq<Member>)
    requires Ordered(x) && Ordered(y)
    requires forall m :: m in x <==> m in y
    ensures x == y
  {
    assert x == [] || x[0] in y;
    assert y == [] || y[0] in x;
    if x != [] {
      HeadsAgree(x, y);
      forall m ensures m in x[1..] <==> m in y[1..] {
        TailMembers(x, m);
        TailMembers(y, m);
      }
      OrderedUnique(x[1..], y[1..]);
      assert x == [x[0]] + x[1..] && y == [y[0]] + y[1..];
    }
  }

  lemma HeadsAgree(x: seq<Member>, y: seq<Member>)
    requires Ordered(x) && Ordered(y) && x != [] && y != []
    requires x[0] in y && y[0] in x
    ensures x[0] == y[0]
  {
    var i :| 0 <= i < |y| && y[i] == x[0];
    var k :| 0 <= k < |x| && x[k] == y[0];
    if i > 0 && k > 0 {
      LessAsymmetric(y[0].key, y[i].key);
      assert false;
    }
  }

  lemma TailMembers(x: seq<Member>, m: Member)
    requires Ordered(x) && x != []
    ensures m in x[1..] <==> m in x && m != x[0]
  {
    OrderedDistinct(x);
    if m in x && m != x[0] {
      var i :| 0 <= i < |x| && x[i] == m;
      assert x[1..][i - 1] == m;
    }
  }

  lemma {:induction false} SortValuesAt(ms: seq<Member>, i: nat)
    requires i < |ms|
    ensures SortValues(ms)[i] == Member(ms[i].key, SortKeys(ms[i].value))
  {
    if i > 0 { SortValuesAt(ms[1..], i - 1); }
  }

  lemma {:induction false} SortItemsAt(items: seq<Json>, i: nat)
    requires i < |items|
    ensures SortItems(items)[i] == SortKeys(items[i])
  {
    if i > 0 { SortItemsAt(items[1..], i - 1); }
  }

  lemma SortValuesDistinct(ms: seq<Member>)
    requires Distinct(ms)
    ensures Distinct(SortValues(ms))
  {
    forall i, k | 0 <= i < k < |ms| ensures SortValues(ms)[i].key != SortValues(ms)[k].key {
      SortValuesAt(ms, i);
      SortValuesAt(ms, k);
    }
  }

  /** A sorted object lists exactly the members of the original, with their values sorted. */
  lemma SortedObject(ms: seq<Member>, m: Member)
    requires Distinct(ms)
    ensures Ordered(SortByKey(SortValues(ms)))
    ensures m in SortByKey(SortValues(ms)) <==>
            exists i :: 0 <= i < |ms| && ms[i].key == m.key && SortKeys(ms[i].value) == m.value
  {
    SortValuesDistinct(ms);
    SortByKeyOrder(SortValues(ms));
    SortMembers(KeyBefore, SortValues(ms), m);
    if m in SortValues(ms) {
      var i :| 0 <= i < |ms| && SortValues(ms)[i] == m;
      SortValuesAt(ms, i);
    }
    if i :| 0 <= i < |ms| && ms[i].key == m.key && SortKeys(ms[i].value) == m.value {
      SortValuesAt(ms, i);
    }
  }

  // ----------------------------------------------------------- normal form

  lemma {:induction false} SortedEqualImpliesSame(a: Json, b: Json)
    requires UniqueKeys(a) && UniqueKeys(b) && SortKeys(a) == SortKeys(b)
    ensures SameTree(a, b)
    decreases a
  {
    match (a, b)
    case (Arr(x), Arr(y)) =>
      assert |x| == |SortItems(x)| == |SortItems(y)| == |y|;
      forall i | 0 <= i < |x| ensures SameTree(x[i], y[i]) {
        SortItemsAt(x, i);
        SortItemsAt(y, i);
        SortedEqualImpliesSame(x[i], y[i]);
      }
    case (Obj(x), Obj(y)) =>
      forall i | 0 <= i < |x| ensures HasKey(y, x[i].key) { var _ := Partner(x, y, i); }
      forall i | 0 <= i < |y| ensures HasKey(x, y[i].key) { var _ := Partner(y, x, i); }
      forall i, k | 0 <= i < |x| && 0 <= k < |y| && x[i].key == y[k].key
        ensures SameTree(x[i].value, y[k].value)
      {
        var k' := Partner(x, y, i);
        assert k' == k;
        SortedEqualImpliesSame(x[i].value, y[k].value);
      }
    case _ =>
  }

  /** In objects that sort alike, every member has a partner with the same key and sorted value. */
  lemma Partner(x: seq<Member>, y: seq<Member>, i: nat) returns (k: nat)
    requires Distinct(x) && Distinct(y) && i < |x|
    requires SortByKey(SortValues(x)) == SortByKey(SortValues(y))
    ensures k < |y| && y[k].key == x[i].key && SortKeys(y[k].value) == SortKeys(x[i].value)
  {
    var m := Member(x[i].key, SortKeys(x[i].value));
    SortedObject(x, m);
    SortedObject(y, m);
    k :| 0 <= k < |y| && y[k].key == m.key && SortKeys(y[k].value) == m.value;
  }

  lemma {:induction false} SameImpliesSortedEqual(a: Json, b: Json)
    requires UniqueKeys(a) && UniqueKeys(b) && SameTree(a, b)
    ensures SortKeys(a) == SortKeys(b)
    decreases a
  {
    match (a, b)
    case (Arr(x), Arr(y)) =>
      forall i | 0 <= i < |x| ensures SortItems(x)[i] == SortItems(y)[i] {
        SortItemsAt(x, i);
        SortItemsAt(y, i);
        SameImpliesSortedEqual(x[i], y[i]);
      }
    case (Obj(x), Obj(y)) =>
      forall i, k | 0 <= i < |x| && 0 <= k < |y| && x[i].key == y[k].key
        ensures SortKeys(x[i].value) == SortKeys(y[k].value)
      {
        SameImpliesSortedEqual(x[i].value, y[k].value);
      }
      forall m ensures m in SortByKey(SortValues(x)) <==> m in SortByKey(SortValues(y)) {
        SortedObject(x, m);
        SortedObject(y, m);
        MembersCarryOver(x, y, m);
        MembersCarryOver(y, x, m);
      }
      SortedObject(x, Member("", Null));
      SortedObject(y, Member("", Null));
      OrderedUnique(SortByKey(SortValues(x)), SortByKey(SortValues(y)));
    case _ =>
  }

  lemma MembersCarryOver(x: seq<Member>, y: seq<Member>, m: Member)
    requires forall key :: HasKey(x, key) ==> HasKey(y, key)
    requires forall i, k | 0 <= i < |x| && 0 <= k < |y| && x[i].key == y[k].key ::
               SortKeys(x[i].value) == SortKeys(y[k].value)
    ensures (exists i :: 0 <= i < |x| && x[i].key == m.key && SortKeys(x[i].value) == m.value) ==>
            (exists k :: 0 <= k < |y| && y[k].key == m.key && SortKeys(y[k].value) == m.value)
  {
    if i :| 0 <= i < |x| && x[i].key == m.key && SortKeys(x[i].value) == m.value {
      assert HasKey(x, x[i].key);
      var k :| 0 <= k < |y| && y[k].key == x[i].key;
      assert SortKeys(y[k].value) == m.value;
    }
  }

  /**
   * Canonical bytes are a normal form: two values have the same canonical bytes exactly when they
   * are equal up to the order of object keys.
   */
  lemma CanonicalIsNormalForm(a: Json, b: Json)
    requires UniqueKeys(a) && UniqueKeys(b)
    ensures CanonicalBytes(a) == CanonicalBytes(b) <==> SameTree(a, b)
  {
    if CanonicalBytes(a) == CanonicalBytes(b) {
      EncodeInjective(CanonicalText(a), CanonicalText(b));
      JsonRoundTrip.PrintInjective(SortKeys(a), SortKeys(b), Compact);
      SortedEqualImpliesSame(a, b);
    }
    if SameTree(a, b) {
      SameImpliesSortedEqual(a, b);
    }
  }

  // ------------------------------------------- sorting keeps the document

  lemma {:induction false} LookupAt(ms: seq<Member>, i: nat)
    requires Distinct(ms) && i < |ms|
    ensures Lookup(ms, ms[i].key) == Some(ms[i].value)
  {
    if i > 0 { LookupAt(ms[1..], i - 1); }
  }

  lemma {:induction false} LookupFinds(ms: seq<Member>, key: string)
    ensures Lookup(ms, key).Some? <==> HasKey(ms, key)
    ensures Lookup(ms, key).Some? ==> Member(key, Lookup(ms, key).value) in ms
  {
    if ms != [] {
      LookupFinds(ms[1..], key);
      if HasKey(ms, key) && ms[0].key != key {
        var i :| 0 <= i < |ms| && ms[i].key == key;
        assert ms[1..][i - 1].key == key;
      }
      if HasKey(ms[1..], key) {
        var i :| 0 <= i < |ms[1..]| && ms[1..][i].key == key;
        assert ms[i + 1].key == key;
      }
      if ms[0].key == key { assert ms[0] == Member(key, ms[0].value); }
    }
  }

  /** Every lookup in a sorted object finds what it found before, itself sorted. */
  lemma SortKeysKeepsLookups(ms: seq<Member>, key: string)
    requires Distinct(ms)
    ensures Lookup(SortKeys(Obj(ms)).members, key) ==
            match Lookup(ms, key) case None => None case Some(v) => Some(SortKeys(v))
  {
    var s := SortKeys(Obj(ms)).members;
    LookupFinds(ms, key);
    LookupFinds(s, key);
    forall k | 0 <= k < |s| ensures HasKey(ms, s[k].key) {
      SortedObject(ms, s[k]);
    }
    if Lookup(ms, key).Some? {
      var m := Member(key, SortKeys(Lookup(ms, key).value));
      SortedObject(ms, m);
      var k :| 0 <= k < |s| && s[k] == m;
      OrderedDistinct(s);
      LookupAt(s, k);
    }
  }

  lemma {:induction false} SortKeysUnique(j: Json)
    requires UniqueKeys(j)
    ensures UniqueKeys(SortKeys(j)) && SameTree(j, SortKeys(j))
    decreases j
  {
    match j
    case Arr(items) =>
      forall i | 0 <= i < |items|
        ensures UniqueKeys(SortItems(items)[i]) && SameTree(items[i], SortItems(items)[i])
      {
        SortItemsAt(items, i);
        SortKeysUnique(items[i]);
      }
    case Obj(ms) =>
      forall i | 0 <= i < |ms|
        ensures UniqueKeys(SortKeys(ms[i].value)) && SameTree(ms[i].value, SortKeys(ms[i].value))
      {
        SortKeysUnique(ms[i].value);
      }
      SortedObjectSame(ms);
    case _ =>
  }

  lemma SortedObjectSame(ms: seq<Member>)
    requires Distinct(ms)
    requires forall i | 0 <= i < |ms| ::
               UniqueKeys(SortKeys(ms[i].value)) && SameTree(ms[i].value, SortKeys(ms[i].value))
    ensures UniqueKeys(SortKeys(Obj(ms))) && SameTree(Obj(ms), SortKeys(Obj(ms)))
  {
    var s := SortByKey(SortValues(ms));
    SortedObject(ms, Member("", Null));
    OrderedDistinct(s);
    forall k | 0 <= k < |s|
      ensures HasKey(ms, s[k].key) && UniqueKeys(s[k].value)
      ensures forall i | 0 <= i < |ms| && ms[i].key == s[k].key :: SameTree(ms[i].value, s[k].value)
    {
      SortedObject(ms, s[k]);
    }
    forall i | 0 <= i < |ms| ensures HasKey(s, ms[i].key) {
      var m := Member(ms[i].key, SortKeys(ms[i].value));
      SortedObject(ms, m);
      var k :| 0 <= k < |s| && s[k] == m;
    }
  }

  /** Sorting twice is sorting once. */
  lemma SortKeysIdempotent(j: Json)
    requires UniqueKeys(j)
    ensures SortKeys(SortKeys(j)) == SortKeys(j)
  {
    SortKeysUnique(j);
    SameImpliesSortedEqual(j, SortKeys(j));
  }
}
