/** Which backup a rollback goes back to: the greatest name in byte order, and when that is the latest version. */
module Versions {
  import opened Wrappers
  import opened Sequences
  import opened Sorting
  import opened Text

  // ------------------------------------------------------ choosing a backup

  datatype DirEntry = DirEntry(name: string, isDir: bool)

  /** Directory names that start with a `v`, without it. */
  function BackupVersions(entries: seq<DirEntry>): seq<string> {
    if entries == [] then []
    else
      (if entries[0].isDir && entries[0].name != "" && entries[0].name[0] == 'v' then [entries[0].name[1..]] else [])
      + BackupVersions(entries[1..])
  }

  predicate Greater(a: string, b: string) {
    Less(b, a)
  }

  /** `sort_by` with the arguments of the comparison swapped. */
  function SortDown(xs: seq<string>): (r: seq<string>)
    ensures |r| == |xs|
  {
    Sort(Greater, xs)
  }

  /** `most_recent_backup_version`. */
  function MostRecent(entries: seq<DirEntry>): Result<string> {
    var versions := SortDown(BackupVersions(entries));
    if versions == [] then Err(Error.Rollback) else Ok(versions[0])
  }

  predicate AtMost(a: string, b: string) {
    a == b || Less(a, b)
  }

  /** The first of a sorted list is one of the list, and none of it is greater. */
  lemma {:induction false} SortDownFirst(xs: seq<string>)
    requires xs != []
    ensures SortDown(xs)[0] in xs && forall x | x in xs :: AtMost(x, SortDown(xs)[0])
  {
    var rest := xs[1..];
    assert xs == [xs[0]] + rest;
    if rest != [] {
      SortDownFirst(rest);
      var first := SortDown(rest)[0];
      LessTotal(xs[0], first);
      forall x | x in rest && Less(first, xs[0]) ensures AtMost(x, xs[0]) {
        if x != first { LessTransitive(x, first, xs[0]); }
      }
    }
  }

  lemma {:induction false} BackupVersionsExact(entries: seq<DirEntry>, version: string)
    ensures version in BackupVersions(entries) <==> DirEntry("v" + version, true) in entries
  {
    if entries != [] {
      BackupVersionsExact(entries[1..], version);
      var e := entries[0];
      assert entries == [e] + entries[1..];
      if e.isDir && e.name != "" && e.name[0] == 'v' {
        assert e.name == "v" + e.name[1..];
        assert ("v" + version)[1..] == version;
      } else {
        assert ("v" + version)[0] == 'v';
      }
    }
  }

  /** The backup chosen is the greatest in byte order; without backups there is an error. */
  lemma MostRecentIsGreatest(entries: seq<DirEntry>)
    ensures MostRecent(entries).Ok? <==> exists v :: DirEntry("v" + v, true) in entries
    ensures MostRecent(entries).Ok? ==>
              && DirEntry("v" + MostRecent(entries).value, true) in entries
              && forall v | DirEntry("v" + v, true) in entries :: AtMost(v, MostRecent(entries).value)
    ensures MostRecent(entries).Err? ==> MostRecent(entries).error == Error.Rollback
  {
    var versions := BackupVersions(entries);
    forall v ensures v in versions <==> DirEntry("v" + v, true) in entries { BackupVersionsExact(entries, v); }
    if versions != [] {
      SortDownFirst(versions);
      assert versions[0] in versions;
    }
  }

  // ------------------------------------------- byte order and numeric order

  type Fields = seq<nat>

  /** Numeric fields, and what follows the hyphen of a pre-release; a release has no suffix. */
  datatype Version = Version(core: Fields, suffix: string)

  function CoreText(fields: Fields): string {
    if fields == [] then [] else Decimal(fields[0]) + Rest(fields)
  }

  function Rest(fields: Fields): string
    decreases fields, 0
  {
    if |fields| <= 1 then [] else "." + CoreText(fields[1..])
  }

  function SuffixText(suffix: string): string {
    if suffix == [] then [] else "-" + suffix
  }

  function VersionText(v: Version): string {
    CoreText(v.core) + SuffixText(v.suffix)
  }

  /** Numeric order, field by field; what is a prefix comes first. */
  predicate FieldsLess(a: Fields, b: Fields) {
    b != [] && (a == [] || a[0] < b[0] || (a[0] == b[0] && FieldsLess(a[1..], b[1..])))
  }

  /** The order of versions, except among the pre-releases of one release: a pre-release precedes its release. */
  predicate Older(a: Version, b: Version) {
    FieldsLess(a.core, b.core) || (a.core == b.core && a.suffix != [] && b.suffix == [])
  }

  function Width(n: nat): nat {
    |Decimal(n)|
  }

  /** `n` without its last digits. */
  function DropDigits(n: nat, count: nat): nat {
    if count == 0 then n else DropDigits(n / 10, count - 1)
  }

  /** The smaller number is at most what the first digits of the larger one denote. */
  predicate InDigitOrder(small: nat, large: nat) {
    Width(small) <= Width(large) && small <= DropDigits(large, Width(large) - Width(small))
  }

  /** The first fields that differ, if there are any, are in digit order. */
  predicate CoresInTextOrder(a: Fields, b: Fields) {
    a == [] || b == [] ||
    (if a[0] == b[0] then CoresInTextOrder(a[1..], b[1..])
     else if a[0] < b[0] then InDigitOrder(a[0], b[0])
     else InDigitOrder(b[0], a[0]))
  }

  predicate InTextOrder(a: Version, b: Version) {
    a.core != b.core && CoresInTextOrder(a.core, b.core)
  }

  lemma {:induction false} LessSnoc(x: string, c: char, y: string, d: char)
    requires |x| == |y|
    ensures Less(x + [c], y + [d]) <==> Less(x, y) || (x == y && c < d)
  {
    if x != [] {
      assert (x + [c])[1..] == x[1..] + [c] && (y + [d])[1..] == y[1..] + [d];
      assert x == [x[0]] + x[1..] && y == [y[0]] + y[1..];
      LessSnoc(x[1..], c, y[1..], d);
    }
  }

  lemma {:induction false} LessSameLength(x: string, y: string, r: string, s: string)
    requires |x| == |y| && x != y
    ensures Less(x + r, y + s) <==> Less(x, y)
  {
    if x[0] == y[0] {
      assert (x + r)[1..] == x[1..] + r && (y + s)[1..] == y[1..] + s;
      assert x == [x[0]] + x[1..] && y == [y[0]] + y[1..];
      LessSameLength(x[1..], y[1..], r, s);
    }
  }

  lemma {:induction false} LessAfter(p: string, r: string, s: string)
    ensures Less(p + r, p + s) <==> Less(r, s)
  {
    if p == [] {
      assert p + r == r && p + s == s;
    } else {
      assert (p + r)[1..] == p[1..] + r && (p + s)[1..] == p[1..] + s;
      LessAfter(p[1..], r, s);
    }
  }

  lemma TensOrder(m: nat, n: nat, i: int, k: int)
    requires 0 <= i < 10 && 0 <= k < 10
    ensures 10 * m + i < 10 * n + k <==> m < n || (m == n && i < k)
    ensures 10 * m + i == 10 * n + k <==> m == n && i == k
  {}

  lemma SnocEqual(x: string, c: char, y: string, d: char)
    requires |x| == |y|
    ensures x + [c] == y + [d] <==> x == y && c == d
  {
    assert (x + [c])[..|x|] == x && (y + [d])[..|y|] == y && (x + [c])[|x|] == c && (y + [d])[|y|] == d;
  }

  lemma DigitsSnoc(x: string, c: char, y: string, d: char)
    requires AllDigits(x) && AllDigits(y) && |x| == |y| && IsDigit(c) && IsDigit(d)
    requires Less(x, y) <==> DigitsValue(x) < DigitsValue(y)
    requires x == y <==> DigitsValue(x) == DigitsValue(y)
    ensures AllDigits(x + [c]) && AllDigits(y + [d])
    ensures Less(x + [c], y + [d]) <==> DigitsValue(x + [c]) < DigitsValue(y + [d])
    ensures x + [c] == y + [d] <==> DigitsValue(x + [c]) == DigitsValue(y + [d])
  {
    LessSnoc(x, c, y, d);
    SnocEqual(x, c, y, d);
    ValueSnoc(x, c, y, d);
  }

  lemma DigitOrder(m: nat, c: char, p: nat, n: nat, d: char, q: nat)
    requires IsDigit(c) && IsDigit(d)
    requires p == 10 * m + (c as int - '0' as int) && q == 10 * n + (d as int - '0' as int)
    ensures p < q <==> m < n || (m == n && c < d)
    ensures p == q <==> m == n && c == d
  {
    TensOrder(m, n, c as int - '0' as int, d as int - '0' as int);
  }

  lemma ValueSnoc(x: string, c: char, y: string, d: char)
    requires AllDigits(x) && AllDigits(y) && IsDigit(c) && IsDigit(d)
    ensures AllDigits(x + [c]) && AllDigits(y + [d])
    ensures DigitsValue(x + [c]) < DigitsValue(y + [d]) <==>
            DigitsValue(x) < DigitsValue(y) || (DigitsValue(x) == DigitsValue(y) && c < d)
    ensures DigitsValue(x + [c]) == DigitsValue(y + [d]) <==> DigitsValue(x) == DigitsValue(y) && c == d
  {
    DigitsValueSnoc(x, c);
    DigitsValueSnoc(y, d);
    DigitOrder(DigitsValue(x), c, DigitsValue(x + [c]), DigitsValue(y), d, DigitsValue(y + [d]));
  }

  /** Digit strings of one length are in the order of the numbers. */
  lemma {:induction false} DigitsInOrder(x: string, y: string)
    requires AllDigits(x) && AllDigits(y) && |x| == |y|
    ensures Less(x, y) <==> DigitsValue(x) < DigitsValue(y)
    ensures x == y <==> DigitsValue(x) == DigitsValue(y)
  {
    if x != [] {
      var n := |x| - 1;
      DigitsInOrder(x[..n], y[..n]);
      DigitsSnoc(x[..n], x[n], y[..n], y[n]);
      assert x == x[..n] + [x[n]] && y == y[..n] + [y[n]];
    }
  }

  lemma {:induction false} FirstDigits(s: string, n: nat)
    requires AllDigits(s) && n <= |s|
    ensures DigitsValue(s[..n]) == DropDigits(DigitsValue(s), |s| - n)
  {
    if n < |s| {
      var front := s[..|s| - 1];
      assert DigitsValue(s) / 10 == DigitsValue(front);
      FirstDigits(front, n);
      assert front[..n] == s[..n];
    } else {
      assert s[..n] == s;
    }
  }

  lemma {:induction false} WidthGrows(m: nat, n: nat)
    requires m <= n
    ensures Width(m) <= Width(n)
  {
    if n >= 10 && m >= 10 { WidthGrows(m / 10, n / 10); }
  }

  /** What can follow a field: nothing, or a dot or a hyphen, which come before all digits. */
  predicate Ending(s: string) {
    s == [] || s[0] == '.' || s[0] == '-'
  }

  lemma FieldOrder(x: nat, y: nat, r: string, s: string)
    requires x < y && Ending(r)
    ensures Less(Decimal(x) + r, Decimal(y) + s) <==> InDigitOrder(x, y)
  {
    var dx, dy := Decimal(x), Decimal(y);
    WidthGrows(x, y);
    DigitsOrder(dx, dy, r, s);
  }

  lemma DigitsOrder(dx: string, dy: string, r: string, s: string)
    requires AllDigits(dx) && AllDigits(dy) && |dx| <= |dy| && DigitsValue(dx) < DigitsValue(dy) && Ending(r)
    ensures Less(dx + r, dy + s) <==> DigitsValue(dx) <= DropDigits(DigitsValue(dy), |dy| - |dx|)
  {
    FirstDigits(dy, |dx|);
    DigitFieldOrder(dx, dy, r, s);
  }

  lemma DigitFieldOrder(x: string, y: string, r: string, s: string)
    requires AllDigits(x) && AllDigits(y) && |x| <= |y| && x != y && Ending(r)
    ensures Less(x + r, y + s) <==> DigitsValue(x) <= DigitsValue(y[..|x|])
  {
    SplitAt(y, |x|, s);
    FrontDecides(x, y[..|x|], y[|x|..], r, s);
  }

  lemma SplitAt(y: string, n: nat, s: string)
    requires n <= |y|
    ensures y == y[..n] + y[n..] && y + s == y[..n] + (y[n..] + s)
  {}

  lemma FrontDecides(x: string, front: string, back: string, r: string, s: string)
    requires AllDigits(x) && AllDigits(front) && AllDigits(back) && |x| == |front| && Ending(r)
    requires back == [] ==> x != front
    ensures Less(x + r, front + (back + s)) <==> DigitsValue(x) <= DigitsValue(front)
  {
    DigitsInOrder(x, front);
    if x != front {
      LessSameLength(x, front, r, back + s);
    } else {
      PrefixIsLess(x, back, r, s);
    }
  }

  /** When one field starts with the other, the shorter one comes first. */
  lemma PrefixIsLess(front: string, more: string, r: string, s: string)
    requires Ending(r) && more != [] && AllDigits(more)
    ensures Less(front + r, front + (more + s))
  {
    LessAfter(front, r, more + s);
    assert IsDigit((more + s)[0]);
  }

  /** What can follow the fields of a version. */
  predicate Tail(s: string) {
    s == [] || s[0] == '-'
  }

  lemma RestEnds(a: Fields, r: string)
    requires Tail(r)
    ensures Ending(Rest(a) + r)
  {
    if |a| <= 1 { assert Rest(a) + r == r; }
  }

  /** Texts whose fields are in numeric order are in that order exactly when the fields are in text order. */
  lemma {:induction false} CoreOrder(a: Fields, b: Fields, r: string, s: string)
    requires a != [] && FieldsLess(a, b) && Tail(r)
    ensures Less(CoreText(a) + r, CoreText(b) + s) <==> CoresInTextOrder(a, b)
    decreases |a|
  {
    Assoc(Decimal(a[0]), Rest(a), r);
    Assoc(Decimal(b[0]), Rest(b), s);
    if a[0] < b[0] {
      RestEnds(a, r);
      FieldOrder(a[0], b[0], Rest(a) + r, Rest(b) + s);
    } else {
      LessAfter(Decimal(a[0]), Rest(a) + r, Rest(b) + s);
      if |a| == 1 {
        DotComesLater(r, CoreText(b[1..]), s);
        assert Rest(a) + r == r;
      } else {
        CoreOrder(a[1..], b[1..], r, s);
        AfterDot(CoreText(a[1..]), r, CoreText(b[1..]), s);
      }
    }
  }

  lemma DotComesLater(r: string, text: string, s: string)
    requires Tail(r)
    ensures Less(r, "." + text + s)
  {
    assert ("." + text + s)[0] == '.';
  }

  lemma AfterDot(x: string, r: string, y: string, s: string)
    ensures Less("." + x + r, "." + y + s) <==> Less(x + r, y + s)
    ensures "." + x + r == "." + y + s ==> x + r == y + s
  {
    Assoc(".", x, r);
    Assoc(".", y, s);
    LessAfter(".", x + r, y + s);
    assert ("." + (x + r))[1..] == x + r && ("." + (y + s))[1..] == y + s;
  }

  lemma SameFront(front: string, x: string, y: string)
    ensures front + x == front + y ==> x == y
  {
    assert (front + x)[|front|..] == x && (front + y)[|front|..] == y;
  }

  /** Different fields are never written the same. */
  lemma {:induction false} CoreTextsDiffer(a: Fields, b: Fields, r: string, s: string)
    requires a != [] && FieldsLess(a, b) && Tail(r) && Tail(s)
    ensures CoreText(a) + r != CoreText(b) + s
    decreases |a|
  {
    Assoc(Decimal(a[0]), Rest(a), r);
    Assoc(Decimal(b[0]), Rest(b), s);
    if a[0] < b[0] {
      RestEnds(a, r);
      RestEnds(b, s);
      DifferentFields(a[0], b[0], Rest(a) + r, Rest(b) + s);
    } else {
      SameFront(Decimal(a[0]), Rest(a) + r, Rest(b) + s);
      if |a| == 1 {
        assert Rest(a) + r == r;
        assert (Rest(b) + s)[0] == '.';
      } else {
        CoreTextsDiffer(a[1..], b[1..], r, s);
        AfterDot(CoreText(a[1..]), r, CoreText(b[1..]), s);
      }
    }
  }

  lemma {:induction false} FieldsLessIrreflexive(a: Fields)
    ensures !FieldsLess(a, a)
  {
    if a != [] { FieldsLessIrreflexive(a[1..]); }
  }

  /**
   * An older version has the smaller text exactly when the two differ in a field and the first such fields are in
   * digit order; a pre-release never has a smaller text than its release.
   */
  lemma TextOrderIff(a: Version, b: Version)
    requires a.core != [] && Older(a, b)
    ensures Less(VersionText(a), VersionText(b)) <==> InTextOrder(a, b)
    ensures VersionText(a) != VersionText(b)
  {
    if FieldsLess(a.core, b.core) {
      FieldsLessIrreflexive(a.core);
      CoreOrder(a.core, b.core, SuffixText(a.suffix), SuffixText(b.suffix));
      CoreTextsDiffer(a.core, b.core, SuffixText(a.suffix), SuffixText(b.suffix));
    } else {
      LessAfter(CoreText(a.core), SuffixText(a.suffix), []);
    }
  }

  lemma DifferentFields(x: nat, y: nat, r: string, s: string)
    requires x != y && Ending(r) && Ending(s)
    ensures Decimal(x) + r != Decimal(y) + s
  {
    var dx, dy := Decimal(x), Decimal(y);
    assert (dx + r)[..|dx|] == dx && (dy + s)[..|dy|] == dy;
    assert |dx| < |dy| ==> (dy + s)[|dx|] == dy[|dx|];
    assert |dy| < |dx| ==> (dx + r)[|dy|] == dx[|dy|];
  }

  /** Fields of pairwise equal width are always in text order. */
  lemma {:induction false} EqualWidths(a: Fields, b: Fields)
    requires |a| == |b| && forall i | 0 <= i < |a| :: Width(a[i]) == Width(b[i])
    ensures CoresInTextOrder(a, b)
  {
    if a != [] { EqualWidths(a[1..], b[1..]); }
  }

  /** Version 1.10.0 counts as older than version 1.9.0. */
  lemma TenBeforeNine()
    ensures var nine, ten := Version([1, 9, 0], ""), Version([1, 10, 0], "");
            Older(nine, ten) && !InTextOrder(nine, ten) && !Less(VersionText(nine), VersionText(ten))
  {
    var nine, ten := Version([1, 9, 0], ""), Version([1, 10, 0], "");
    assert [1, 9, 0][1..] == [9, 0] && [1, 10, 0][1..] == [10, 0];
    assert Width(9) == 1 && Width(10) == 2 && DropDigits(10, 1) == 1;
    TextOrderIff(nine, ten);
  }

  /** A release candidate counts as newer than its release, whatever they are called. */
  lemma CandidateAfterRelease(core: Fields, suffix: string)
    requires core != [] && suffix != []
    ensures Older(Version(core, suffix), Version(core, ""))
    ensures Less(VersionText(Version(core, "")), VersionText(Version(core, suffix)))
  {
    LessAfter(CoreText(core), [], SuffixText(suffix));
    assert CoreText(core) + [] == CoreText(core);
  }

  // ------------------------------------------------------------- main result

  predicate IsBackup(entries: seq<DirEntry>, name: string) {
    DirEntry("v" + name, true) in entries
  }

  /**
   * Take any versions from a listing of whatever names. The latest of them is chosen exactly when it is in text order
   * with all the others and no other name of the listing is greater.
   */
  lemma LatestIsChosen(entries: seq<DirEntry>, versions: seq<Version>, n: nat)
    requires n < |versions|
    requires forall k | 0 <= k < |versions| :: versions[k].core != [] && IsBackup(entries, VersionText(versions[k]))
    requires forall k | 0 <= k < |versions| :: versions[k] == versions[n] || Older(versions[k], versions[n])
    ensures MostRecent(entries) == Ok(VersionText(versions[n])) <==>
            && (forall k | 0 <= k < |versions| :: versions[k] == versions[n] || InTextOrder(versions[k], versions[n]))
            && (forall name | IsBackup(entries, name) && !OneOf(versions, name) ::
                  AtMost(name, VersionText(versions[n])))
  {
    var latest := VersionText(versions[n]);
    forall k | 0 <= k < |versions|
      ensures versions[k] == versions[n] || InTextOrder(versions[k], versions[n]) <==>
              AtMost(VersionText(versions[k]), latest)
    {
      if versions[k] != versions[n] { TextOrderIff(versions[k], versions[n]); }
    }
    ChosenIffGreatest(entries, latest);
    if MostRecent(entries) == Ok(latest) {
      forall k | 0 <= k < |versions| ensures AtMost(VersionText(versions[k]), latest) {
        assert IsBackup(entries, VersionText(versions[k]));
      }
    }
  }

  /** Is this name the text of one of the versions? */
  ghost predicate OneOf(versions: seq<Version>, name: string) {
    exists k :: 0 <= k < |versions| && VersionText(versions[k]) == name
  }

  lemma ChosenIffGreatest(entries: seq<DirEntry>, name: string)
    requires IsBackup(entries, name)
    ensures MostRecent(entries) == Ok(name) <==> forall v | IsBackup(entries, v) :: AtMost(v, name)
  {
    MostRecentIsGreatest(entries);
    assert DirEntry("v" + name, true) in entries;
    var chosen := MostRecent(entries).value;
    if MostRecent(entries) == Ok(name) {
      forall v | IsBackup(entries, v) ensures AtMost(v, name) { assert DirEntry("v" + v, true) in entries; }
    } else if forall v | IsBackup(entries, v) :: AtMost(v, name) {
      assert IsBackup(entries, chosen);
      LessAsymmetric(chosen, name);
    }
  }

  /** If all backups are releases whose fields have the same widths, the numerically greatest one is chosen. */
  lemma EqualWidthsChoose(entries: seq<DirEntry>, versions: seq<Version>, n: nat)
    requires n < |versions| && versions[n].core != []
    requires forall name :: IsBackup(entries, name) <==> OneOf(versions, name)
    requires forall k | 0 <= k < |versions| :: SameWidths(versions[k], versions[n])
    requires forall k | 0 <= k < |versions| :: versions[k] == versions[n] || Older(versions[k], versions[n])
    ensures MostRecent(entries) == Ok(VersionText(versions[n]))
  {
    forall k | 0 <= k < |versions|
      ensures IsBackup(entries, VersionText(versions[k])) && versions[k].core != []
      ensures versions[k] == versions[n] || InTextOrder(versions[k], versions[n])
    {
      assert SameWidths(versions[k], versions[n]) && OneOf(versions, VersionText(versions[k]));
      EqualWidths(versions[k].core, versions[n].core);
    }
    LatestIsChosen(entries, versions, n);
  }

  predicate SameWidths(a: Version, b: Version) {
    && a.suffix == b.suffix == [] && |a.core| == |b.core|
    && forall i | 0 <= i < |a.core| :: Width(a.core[i]) == Width(b.core[i])
  }
}
