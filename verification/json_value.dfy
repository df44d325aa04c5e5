/**
 * The two ways serde reads a syntax tree: untyped, into ordered maps where the last of several equal
 * keys wins, and typed, into a struct where a repeated field is an error.
 */
module JsonValue {
  import opened Wrappers
  import opened Text
  import opened Json
  import opened Sorting
  import opened Canonical

  // ---------------------------------------------------------------- maps

  /** Insertion into a map that iterates in key order; an equal key is overwritten. */
  function MapInsert(ms: seq<Member>, key: string, v: Json): seq<Member> {
    if ms == [] || Less(key, ms[0].key) then [Member(key, v)] + ms
    else if ms[0].key == key then [Member(key, v)] + ms[1..]
    else [ms[0]] + MapInsert(ms[1..], key, v)
  }

  /** The map built by inserting `ms` from left to right. */
  function MapOf(ms: seq<Member>): seq<Member> {
    if ms == [] then []
    else var last := ms[|ms| - 1]; MapInsert(MapOf(ms[..|ms| - 1]), last.key, last.value)
  }

  /** The untyped reading: repeated keys are collapsed at every depth, the last one winning. */
  function ToValue(j: Json): Json
    decreases j, 1
  {
    match j
    case Arr(items) => Arr(ItemsToValues(items))
    case Obj(members) => Obj(Collapse(members))
    case _ => j
  }

  function ItemsToValues(items: seq<Json>): (r: seq<Json>)
    ensures |r| == |items|
    decreases items, 0
  {
    if items == [] then [] else [ToValue(items[0])] + ItemsToValues(items[1..])
  }

  function Collapse(ms: seq<Member>): seq<Member>
    decreases ms, 0
  {
    if ms == [] then []
    else var last := ms[|ms| - 1]; MapInsert(Collapse(ms[..|ms| - 1]), last.key, ToValue(last.value))
  }

  lemma {:induction false} MapInsertMembers(ms: seq<Member>, key: string, v: Json, m: Member)
    requires Ordered(ms)
    ensures m in MapInsert(ms, key, v) <==> m == Member(key, v) || (m in ms && m.key != key)
  {
    if ms == [] {
    } else if Less(key, ms[0].key) {
      forall i | 0 <= i < |ms| ensures ms[i].key != key {
        if i > 0 { LessTransitive(key, ms[0].key, ms[i].key); }
        LessIrreflexive(key);
      }
    } else {
      OrderedDistinct(ms);
      assert forall i | 0 <= i < |ms| - 1 :: ms[1..][i] == ms[i + 1];
      TailMembers(ms, m);
      MapInsertMembers(ms[1..], key, v, m);
    }
  }

  lemma {:induction false} MapInsertOrdered(ms: seq<Member>, key: string, v: Json)
    requires Ordered(ms)
    ensures Ordered(MapInsert(ms, key, v))
  {
    if ms == [] {
    } else if Less(key, ms[0].key) {
      forall i | 0 <= i < |ms| ensures Less(key, ms[i].key) {
        if i > 0 { LessTransitive(key, ms[0].key, ms[i].key); }
      }
    } else if ms[0].key != key {
      LessTotal(key, ms[0].key);
      var rest := ms[1..];
      assert forall i | 0 <= i < |rest| :: rest[i] == ms[i + 1];
      MapInsertOrdered(rest, key, v);
      var r := MapInsert(rest, key, v);
      forall i | 0 <= i < |r| ensures Less(ms[0].key, r[i].key) {
        MapInsertMembers(rest, key, v, r[i]);
        assert r[i] in r;
      }
    }
  }

  lemma {:induction false} MapInsertLookup(ms: seq<Member>, key: string, v: Json, key': string)
    requires Ordered(ms)
    ensures Lookup(MapInsert(ms, key, v), key') == if key' == key then Some(v) else Lookup(ms, key')
  {
    if ms != [] && !Less(key, ms[0].key) && ms[0].key != key {
      assert forall i | 0 <= i < |ms| - 1 :: ms[1..][i] == ms[i + 1];
      MapInsertLookup(ms[1..], key, v, key');
    }
  }

  lemma {:induction false} MapOfOrdered(ms: seq<Member>)
    ensures Ordered(MapOf(ms))
  {
    if ms != [] {
      MapOfOrdered(ms[..|ms| - 1]);
      MapInsertOrdered(MapOf(ms[..|ms| - 1]), ms[|ms| - 1].key, ms[|ms| - 1].value);
    }
  }

  lemma {:induction false} MapOfMembers(ms: seq<Member>, m: Member)
    requires m in MapOf(ms)
    ensures m in ms
  {
    if ms != [] {
      var front, last := ms[..|ms| - 1], ms[|ms| - 1];
      MapOfOrdered(front);
      MapInsertMembers(MapOf(front), last.key, last.value, m);
      if m != last { MapOfMembers(front, m); }
    }
  }

  /** In a map built from distinct keys each key finds its value. */
  lemma {:induction false} MapOfLookup(ms: seq<Member>, i: nat)
    requires Distinct(ms) && i < |ms|
    ensures Lookup(MapOf(ms), ms[i].key) == Some(ms[i].value)
  {
    var front, last := ms[..|ms| - 1], ms[|ms| - 1];
    MapOfOrdered(front);
    MapInsertLookup(MapOf(front), last.key, last.value, ms[i].key);
    if i < |front| { MapOfLookup(front, i); }
  }

  /** A map holds no keys but those it was built from, and is a proper value if its values are. */
  lemma MapOfUnique(ms: seq<Member>)
    requires forall i | 0 <= i < |ms| :: UniqueKeys(ms[i].value)
    ensures UniqueKeys(Obj(MapOf(ms)))
  {
    var r := MapOf(ms);
    MapOfOrdered(ms);
    OrderedDistinct(r);
    forall i | 0 <= i < |r| ensures UniqueKeys(r[i].value) { MapOfMembers(ms, r[i]); }
  }

  lemma {:induction false} CollapseOrdered(ms: seq<Member>)
    ensures Ordered(Collapse(ms))
  {
    if ms != [] {
      CollapseOrdered(ms[..|ms| - 1]);
      MapInsertOrdered(Collapse(ms[..|ms| - 1]), ms[|ms| - 1].key, ToValue(ms[|ms| - 1].value));
    }
  }

  // ------------------------------------------------- the untyped reading

  /** The value of the last member with this key. */
  function LastLookup(ms: seq<Member>, key: string): Option<Json> {
    if ms == [] then None
    else if ms[|ms| - 1].key == key then Some(ms[|ms| - 1].value)
    else LastLookup(ms[..|ms| - 1], key)
  }

  function ToOptionValue(o: Option<Json>): Option<Json> {
    match o case None => None case Some(j) => Some(ToValue(j))
  }

  /** Reading untyped, the last of several equal keys wins. */
  lemma {:induction false} CollapseLookup(ms: seq<Member>, key: string)
    ensures Lookup(Collapse(ms), key) == ToOptionValue(LastLookup(ms, key))
  {
    if ms != [] {
      var front := ms[..|ms| - 1];
      CollapseOrdered(front);
      CollapseLookup(front, key);
      MapInsertLookup(Collapse(front), ms[|ms| - 1].key, ToValue(ms[|ms| - 1].value), key);
    }
  }

  lemma {:induction false} LastLookupFinds(ms: seq<Member>, key: string)
    ensures LastLookup(ms, key).Some? <==> HasKey(ms, key)
    ensures LastLookup(ms, key).Some? ==> Member(key, LastLookup(ms, key).value) in ms
  {
    if ms != [] {
      var front := ms[..|ms| - 1];
      LastLookupFinds(front, key);
      if HasKey(ms, key) && ms[|ms| - 1].key != key {
        var i :| 0 <= i < |ms| && ms[i].key == key;
        assert front[i].key == key;
      }
      assert ms[|ms| - 1] in ms;
    }
  }

  lemma {:induction false} ItemsToValuesAt(items: seq<Json>, i: nat)
    requires i < |items|
    ensures ItemsToValues(items)[i] == ToValue(items[i])
  {
    if i > 0 { ItemsToValuesAt(items[1..], i - 1); }
  }

  /** A value has ordered, hence distinct, keys at every depth. */
  ghost predicate IsValue(j: Json)
    decreases j
  {
    match j
    case Arr(items) => forall i | 0 <= i < |items| :: IsValue(items[i])
    case Obj(ms) => Ordered(ms) && forall i | 0 <= i < |ms| :: IsValue(ms[i].value)
    case _ => true
  }

  lemma {:induction false} ToValueIsValue(j: Json)
    ensures IsValue(ToValue(j))
    decreases j, 1
  {
    match j
    case Arr(items) =>
      forall i | 0 <= i < |items| ensures IsValue(ItemsToValues(items)[i]) {
        ItemsToValuesAt(items, i);
        ToValueIsValue(items[i]);
      }
    case Obj(ms) =>
      CollapseIsValue(ms);
      CollapseOrdered(ms);
    case _ =>
  }

  lemma {:induction false} CollapseIsValue(ms: seq<Member>)
    ensures forall m :: m in Collapse(ms) ==> IsValue(m.value)
    decreases ms, 0
  {
    if ms != [] {
      var front, last := ms[..|ms| - 1], ms[|ms| - 1];
      CollapseIsValue(front);
      CollapseOrdered(front);
      ToValueIsValue(last.value);
      forall m | m in Collapse(ms) ensures IsValue(m.value) {
        MapInsertMembers(Collapse(front), last.key, ToValue(last.value), m);
      }
    }
  }

  lemma {:induction false} ValueUnique(j: Json)
    requires IsValue(j)
    ensures UniqueKeys(j)
    decreases j
  {
    match j
    case Arr(items) => forall i | 0 <= i < |items| { ValueUnique(items[i]); }
    case Obj(ms) =>
      OrderedDistinct(ms);
      forall i | 0 <= i < |ms| { ValueUnique(ms[i].value); }
    case _ =>
  }

  /** On a tree without repeated keys the untyped reading changes only the order of keys. */
  lemma {:induction false} ToValueSame(j: Json)
    requires UniqueKeys(j)
    ensures SameTree(j, ToValue(j))
    decreases j
  {
    match j
    case Arr(items) =>
      forall i | 0 <= i < |items| ensures SameTree(items[i], ItemsToValues(items)[i]) {
        ItemsToValuesAt(items, i);
        ToValueSame(items[i]);
      }
    case Obj(ms) =>
      forall i | 0 <= i < |ms| { ToValueSame(ms[i].value); }
      CollapseSame(ms);
    case _ =>
  }

  lemma CollapseSame(ms: seq<Member>)
    requires Distinct(ms)
    requires forall i | 0 <= i < |ms| :: SameTree(ms[i].value, ToValue(ms[i].value))
    ensures SameTree(Obj(ms), Obj(Collapse(ms)))
  {
    var c := Collapse(ms);
    CollapseOrdered(ms);
    OrderedDistinct(c);
    forall key ensures HasKey(ms, key) <==> HasKey(c, key) {
      CollapseLookup(ms, key);
      LookupFinds(c, key);
      LastLookupFinds(ms, key);
    }
    forall i, k | 0 <= i < |ms| && 0 <= k < |c| && ms[i].key == c[k].key
      ensures SameTree(ms[i].value, c[k].value)
    {
      CollapseLookup(ms, c[k].key);
      LookupAt(c, k);
      LastLookupFinds(ms, c[k].key);
    }
  }

  /** Values are already in canonical key order, so sorting them changes nothing. */
  lemma {:induction false} SortKeysOfValue(j: Json)
    requires IsValue(j)
    ensures SortKeys(j) == j
    decreases j
  {
    match j
    case Arr(items) =>
      forall i | 0 <= i < |items| ensures SortItems(items)[i] == items[i] {
        SortItemsAt(items, i);
        SortKeysOfValue(items[i]);
      }
    case Obj(ms) =>
      forall i | 0 <= i < |ms| ensures SortValues(ms)[i] == ms[i] {
        SortValuesAt(ms, i);
        SortKeysOfValue(ms[i].value);
      }
      assert SortValues(ms) == ms;
      OrderedDistinct(ms);
      SortByKeyOrder(ms);
      forall m ensures m in SortByKey(ms) <==> m in ms { SortMembers(KeyBefore, ms, m); }
      OrderedUnique(SortByKey(ms), ms);
    case _ =>
  }

  /** The untyped reading of a value is that value. */
  lemma {:induction false} ToValueOfValue(j: Json)
    requires IsValue(j)
    ensures ToValue(j) == j
    decreases j
  {
    match j
    case Arr(items) =>
      forall i | 0 <= i < |items| ensures ItemsToValues(items)[i] == items[i] {
        ItemsToValuesAt(items, i);
        ToValueOfValue(items[i]);
      }
    case Obj(ms) =>
      forall i | 0 <= i < |ms| { ToValueOfValue(ms[i].value); }
      CollapseOfOrdered(ms);
    case _ =>
  }

  lemma CollapseOfOrdered(ms: seq<Member>)
    requires Ordered(ms) && forall i | 0 <= i < |ms| :: ToValue(ms[i].value) == ms[i].value
    ensures Collapse(ms) == ms
  {
    var c := Collapse(ms);
    CollapseOrdered(ms);
    OrderedDistinct(ms);
    OrderedDistinct(c);
    forall m ensures m in c <==> m in ms {
      CollapseLookup(ms, m.key);
      LastLookupFinds(ms, m.key);
      LookupFinds(c, m.key);
      if m in c {
        var i :| 0 <= i < |c| && c[i] == m;
        LookupAt(c, i);
      }
      if m in ms {
        var i :| 0 <= i < |ms| && ms[i] == m;
        assert HasKey(ms, m.key);
      }
    }
    OrderedUnique(c, ms);
  }

  // --------------------------------------------------- the typed reading

  function Count(ms: seq<Member>, key: string): nat {
    if ms == [] then 0 else Count(ms[1..], key) + (if ms[0].key == key then 1 else 0)
  }

  /**
   * The raw fields of a struct with these field names. Objects are read by name: unknown fields are
   * skipped, a repeated field is an error, a missing one is None. Arrays are read by position.
   */
  function StructFields(j: Json, names: seq<string>): (r: Option<seq<Option<Json>>>)
    ensures r.Some? ==> |r.value| == |names|
  {
    match j
    case Obj(ms) =>
      if exists i | 0 <= i < |names| :: Count(ms, names[i]) > 1 then None
      else Some(seq(|names|, i requires 0 <= i < |names| => Lookup(ms, names[i])))
    case Arr(items) =>
      if |items| == |names| then Some(seq(|items|, i requires 0 <= i < |items| => Option.Some(items[i]))) else None
    case _ => None
  }

  function AsString(o: Option<Json>): Option<string> {
    match o case Some(Str(s)) => Some(s) case _ => None
  }

  lemma {:induction false} CountDistinct(ms: seq<Member>, key: string)
    requires Distinct(ms)
    ensures Count(ms, key) <= 1
    ensures Count(ms, key) == 0 <==> !HasKey(ms, key)
  {
    if ms != [] {
      assert forall i | 0 <= i < |ms| - 1 :: ms[1..][i] == ms[i + 1];
      CountDistinct(ms[1..], key);
      if HasKey(ms, key) && ms[0].key != key {
        var i :| 0 <= i < |ms| && ms[i].key == key;
        assert ms[1..][i - 1].key == key;
      }
    }
  }

  lemma {:induction false} CountFront(ms: seq<Member>, key: string)
    requires ms != []
    ensures Count(ms, key) == Count(ms[..|ms| - 1], key) + (if ms[|ms| - 1].key == key then 1 else 0)
  {
    if |ms| > 1 {
      CountFront(ms[1..], key);
      assert ms[1..][..|ms| - 2] == ms[..|ms| - 1][1..];
    }
  }

  lemma {:induction false} LookupFront(ms: seq<Member>, key: string)
    requires ms != []
    ensures Lookup(ms, key) == if Lookup(ms[..|ms| - 1], key).Some? then Lookup(ms[..|ms| - 1], key)
                               else if ms[|ms| - 1].key == key then Some(ms[|ms| - 1].value) else None
  {
    if |ms| > 1 {
      LookupFront(ms[1..], key);
      assert ms[1..][..|ms| - 2] == ms[..|ms| - 1][1..];
    }
  }

  lemma {:induction false} CountZero(ms: seq<Member>, key: string)
    ensures Count(ms, key) == 0 <==> Lookup(ms, key).None?
  {
    if ms != [] { CountZero(ms[1..], key); }
  }

  /** Where a key is not repeated, first and last member agree. */
  lemma {:induction false} FirstIsLast(ms: seq<Member>, key: string)
    requires Count(ms, key) <= 1
    ensures LastLookup(ms, key) == Lookup(ms, key)
  {
    if ms != [] {
      CountFront(ms, key);
      LookupFront(ms, key);
      CountZero(ms[..|ms| - 1], key);
      if ms[|ms| - 1].key != key { FirstIsLast(ms[..|ms| - 1], key); }
    }
  }

  /** If the typed reading of the raw tree succeeds, the untyped value has the same fields. */
  lemma StructFieldsOfValue(j: Json, names: seq<string>)
    requires StructFields(j, names).Some?
    ensures StructFields(ToValue(j), names).Some?
    ensures forall i | 0 <= i < |names| ::
              StructFields(ToValue(j), names).value[i] == ToOptionValue(StructFields(j, names).value[i])
  {
    match j
    case Obj(ms) =>
      forall i | 0 <= i < |names|
        ensures Count(Collapse(ms), names[i]) <= 1
        ensures Lookup(Collapse(ms), names[i]) == ToOptionValue(Lookup(ms, names[i]))
      {
        CollapseOrdered(ms);
        OrderedDistinct(Collapse(ms));
        CountDistinct(Collapse(ms), names[i]);
        CollapseLookup(ms, names[i]);
        FirstIsLast(ms, names[i]);
      }
    case Arr(items) =>
      forall i | 0 <= i < |items| { ItemsToValuesAt(items, i); }
  }

  /** Reading a map of distinct keys by name finds each field. */
  lemma StructFieldsOfMap(ms: seq<Member>, names: seq<string>)
    requires Distinct(ms)
    ensures StructFields(Obj(ms), names).Some?
    ensures forall i | 0 <= i < |names| :: StructFields(Obj(ms), names).value[i] == Lookup(ms, names[i])
  {
    forall i | 0 <= i < |names| ensures Count(ms, names[i]) <= 1 { CountDistinct(ms, names[i]); }
  }

  /** Reading back a struct that was built as a map finds every field. */
  lemma StructFieldsOfMapOf(ms: seq<Member>, names: seq<string>)
    requires Distinct(ms) && |ms| == |names| && forall i | 0 <= i < |ms| :: ms[i].key == names[i]
    ensures StructFields(Obj(MapOf(ms)), names).Some?
    ensures forall i | 0 <= i < |names| :: StructFields(Obj(MapOf(ms)), names).value[i] == Some(ms[i].value)
  {
    MapOfOrdered(ms);
    OrderedDistinct(MapOf(ms));
    StructFieldsOfMap(MapOf(ms), names);
    forall i | 0 <= i < |names| { MapOfLookup(ms, i); }
  }

  /** Inserting the same values into the same map, up to key order, gives the same map. */
  lemma MapInsertSame(x: seq<Member>, y: seq<Member>, key: string, v: Json, w: Json)
    requires Ordered(x) && Ordered(y) && SameTree(Obj(x), Obj(y)) && SameTree(v, w)
    ensures SameTree(Obj(MapInsert(x, key, v)), Obj(MapInsert(y, key, w)))
  {
    var a, b := MapInsert(x, key, v), MapInsert(y, key, w);
    forall k ensures HasKey(a, k) <==> HasKey(b, k) {
      LookupFinds(a, k);
      LookupFinds(b, k);
      LookupFinds(x, k);
      LookupFinds(y, k);
      MapInsertLookup(x, key, v, k);
      MapInsertLookup(y, key, w, k);
    }
    forall i, k | 0 <= i < |a| && 0 <= k < |b| && a[i].key == b[k].key
      ensures SameTree(a[i].value, b[k].value)
    {
      MapInsertMembers(x, key, v, a[i]);
      MapInsertMembers(y, key, w, b[k]);
      assert a[i] in a && b[k] in b;
      MapInsertOrdered(x, key, v);
      MapInsertOrdered(y, key, w);
    }
  }
}
