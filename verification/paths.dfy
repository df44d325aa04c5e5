/** Unix paths as Rust's `std::path` reads them, and the check that keeps a restore inside its directories. */
module Paths {
  import opened Wrappers
  import opened Sequences

  datatype Component = Root | Current | Parent | Normal(name: string)

  /** The text between slashes, empty pieces included. */
  function Pieces(s: string): (r: seq<string>)
    ensures r != []
  {
    if s == [] then [[]]
    else if s[0] == '/' then [[]] + Pieces(s[1..])
    else var r := Pieces(s[1..]); [[s[0]] + r[0]] + r[1..]
  }

  /** Empty pieces and single dots are no components. */
  function Kept(pieces: seq<string>): seq<Component> {
    if pieces == [] then []
    else
      (if pieces[0] == "" || pieces[0] == "." then []
       else if pieces[0] == ".." then [Parent]
       else [Normal(pieces[0])]) + Kept(pieces[1..])
  }

  predicate IsAbsolute(s: string) {
    s != [] && s[0] == '/'
  }

  /** Only the start of a path can be the root or a dot. */
  function Lead(s: string): seq<Component> {
    if IsAbsolute(s) then [Root] else if Pieces(s)[0] == "." then [Current] else []
  }

  function Components(s: string): seq<Component> {
    Lead(s) + Kept(Pieces(s))
  }

  /** `a.join(b)`: an absolute `b` replaces `a`. */
  function Join(a: string, b: string): string {
    if IsAbsolute(b) || a == [] then b
    else if a[|a| - 1] == '/' then a + b
    else a + "/" + b
  }

  /** The components of `path` after those of `parent`. */
  function StripPrefix(path: seq<Component>, parent: seq<Component>): Option<seq<Component>> {
    if parent <= path then Some(path[|parent|..]) else None
  }

  /** `assert_path_under_parent`. */
  predicate UnderParent(path: string, parent: string) {
    match StripPrefix(Components(path), Components(parent))
    case None => false
    case Some(rest) => Parent !in rest
  }

  // -------------------------------------------------- joining, piece by piece

  lemma LongerFirstPiece(c: char, r: seq<string>, q: seq<string>)
    requires r != []
    ensures [[c] + (r + q)[0]] + (r + q)[1..] == ([[c] + r[0]] + r[1..]) + q
  {
    assert (r + q)[1..] == r[1..] + q;
  }

  lemma EmptyFirstPiece(r: seq<string>, q: seq<string>)
    ensures [[]] + (r + q) == ([[]] + r) + q
  {}

  lemma {:induction false} PiecesOfJoin(a: string, b: string)
    ensures Pieces(a + "/" + b) == Pieces(a) + Pieces(b)
  {
    var s := a + "/" + b;
    if a == [] {
      assert s[1..] == b;
    } else {
      assert s[0] == a[0] && s[1..] == a[1..] + "/" + b;
      PiecesOfJoin(a[1..], b);
      if a[0] == '/' {
        EmptyFirstPiece(Pieces(a[1..]), Pieces(b));
      } else {
        LongerFirstPiece(a[0], Pieces(a[1..]), Pieces(b));
      }
    }
  }

  lemma {:induction false} KeptConcat(x: seq<string>, y: seq<string>)
    ensures Kept(x + y) == Kept(x) + Kept(y)
  {
    if x == [] {
      assert x + y == y;
    } else {
      assert (x + y)[1..] == x[1..] + y;
      KeptConcat(x[1..], y);
    }
  }

  lemma LeadOfJoin(a: string, b: string)
    requires a != []
    ensures Lead(a + "/" + b) == Lead(a)
  {
    PiecesOfJoin(a, b);
    assert (a + "/" + b)[0] == a[0];
    assert (Pieces(a) + Pieces(b))[0] == Pieces(a)[0];
  }

  lemma SlashBetween(a: string, b: string)
    requires a != []
    ensures Components(a + "/" + b) == Components(a) + Kept(Pieces(b))
  {
    LeadOfJoin(a, b);
    PiecesOfJoin(a, b);
    KeptConcat(Pieces(a), Pieces(b));
    Assoc(Lead(a), Kept(Pieces(a)), Kept(Pieces(b)));
  }

  lemma PiecesAfterSlash(s: string)
    requires IsAbsolute(s)
    ensures Pieces(s) == [[]] + Pieces(s[1..])
  {}

  lemma KeptAfterSlash(s: string)
    requires IsAbsolute(s)
    ensures Components(s) == [Root] + Kept(Pieces(s[1..]))
  {
    PiecesAfterSlash(s);
    KeptConcat([[]], Pieces(s[1..]));
  }

  lemma RootComponents()
    ensures Components("/") == [Root]
  {
    KeptAfterSlash("/");
    assert "/"[1..] == [];
  }

  /** A slash at the end of a path changes nothing. */
  lemma EndingSlash(a: string)
    requires a != []
    ensures Components(a + "/") == Components(a)
  {
    SlashBetween(a, []);
    assert a + "/" + [] == a + "/";
    assert Kept(Pieces([])) == [];
  }

  /** Joining a relative path appends its components, without a leading dot. */
  lemma ComponentsOfJoin(a: string, b: string)
    requires a != [] && !IsAbsolute(b)
    ensures Components(Join(a, b)) == Components(a) + Kept(Pieces(b))
  {
    if a == "/" {
      RootComponents();
      assert (a + b)[1..] == b;
      KeptAfterSlash(a + b);
    } else if a[|a| - 1] == '/' {
      var front := a[..|a| - 1];
      assert a == front + "/";
      EndingSlash(front);
      SlashBetween(front, b);
    } else {
      SlashBetween(a, b);
    }
  }

  lemma {:induction false} KeptPlain(pieces: seq<string>, i: nat)
    requires i < |Kept(pieces)|
    ensures Kept(pieces)[i] == Parent || Kept(pieces)[i].Normal?
  {
    var skipped := pieces[0] == "" || pieces[0] == ".";
    if skipped { KeptPlain(pieces[1..], i); } else if i > 0 { KeptPlain(pieces[1..], i - 1); }
  }

  lemma {:induction false} KeptParent(pieces: seq<string>)
    ensures Parent in Kept(pieces) <==> ".." in pieces
  {
    if pieces != [] {
      KeptParent(pieces[1..]);
      assert pieces == [pieces[0]] + pieces[1..];
    }
  }

  // --------------------------------------------------------- main results

  predicate AllNormal(cs: seq<Component>) {
    forall i | 0 <= i < |cs| :: cs[i].Normal?
  }

  /** What `canonicalize` returns: an absolute path of plain names. */
  predicate IsCanonical(s: string) {
    IsAbsolute(s) && AllNormal(Components(s)[1..])
  }

  /** `cs` names something strictly or trivially below `dir`, with no way back up. */
  predicate Below(cs: seq<Component>, dir: seq<Component>) {
    dir <= cs && AllNormal(cs[|dir|..])
  }

  lemma AbsoluteEntry(dir: string, entry: string)
    requires IsCanonical(dir) && IsAbsolute(entry)
    ensures UnderParent(Join(dir, entry), dir) <==> Below(Components(entry), Components(dir))
  {
    var cs := Components(entry);
    assert forall i | 0 < i < |cs| :: cs[i] == Kept(Pieces(entry))[i - 1];
    forall i | 0 < i < |cs| ensures cs[i] == Parent || cs[i].Normal? { KeptPlain(Pieces(entry), i - 1); }
    assert |Components(dir)| >= 1;
  }

  lemma RelativeEntry(dir: string, entry: string)
    requires IsCanonical(dir) && !IsAbsolute(entry)
    ensures UnderParent(Join(dir, entry), dir) <==> ".." !in Pieces(entry)
  {
    ComponentsOfJoin(dir, entry);
    KeptParent(Pieces(entry));
    assert (Components(dir) + Kept(Pieces(entry)))[|Components(dir)|..] == Kept(Pieces(entry));
  }

  /** Exactly which manifest entries pass the check. */
  lemma AcceptedEntries(dir: string, entry: string)
    requires IsCanonical(dir)
    ensures UnderParent(Join(dir, entry), dir) <==>
            if IsAbsolute(entry) then Below(Components(entry), Components(dir)) else ".." !in Pieces(entry)
  {
    if IsAbsolute(entry) {
      AbsoluteEntry(dir, entry);
    } else {
      RelativeEntry(dir, entry);
    }
  }

  /** Every file that is read for an accepted entry lies below the version directory. */
  lemma ReadsStayInside(dir: string, entry: string)
    requires IsCanonical(dir) && UnderParent(Join(dir, entry), dir)
    ensures Below(Components(Join(dir, entry)), Components(dir))
  {
    AcceptedEntries(dir, entry);
    if !IsAbsolute(entry) {
      ComponentsOfJoin(dir, entry);
      KeptParent(Pieces(entry));
      forall i | 0 <= i < |Kept(Pieces(entry))| ensures Kept(Pieces(entry))[i].Normal? {
        KeptPlain(Pieces(entry), i);
      }
      assert (Components(dir) + Kept(Pieces(entry)))[|Components(dir)|..] == Kept(Pieces(entry));
    }
  }

  /**
   * The file that an accepted entry is renamed to lies below the working directory or, when the entry is absolute,
   * below the version directory.
   */
  lemma WritesStayInside(dir: string, cwd: string, entry: string)
    requires IsCanonical(dir) && IsCanonical(cwd) && UnderParent(Join(dir, entry), dir)
    ensures var dest := Components(Join(cwd, entry));
            if IsAbsolute(entry) then Below(dest, Components(dir)) && dest == Components(Join(dir, entry))
            else Below(dest, Components(cwd)) &&
                 dest[|Components(cwd)|..] == Components(Join(dir, entry))[|Components(dir)|..]
  {
    AcceptedEntries(dir, entry);
    if !IsAbsolute(entry) {
      ComponentsOfJoin(dir, entry);
      ComponentsOfJoin(cwd, entry);
      AcceptedEntries(cwd, entry);
      ReadsStayInside(cwd, entry);
      var k := Kept(Pieces(entry));
      assert (Components(dir) + k)[|Components(dir)|..] == k;
      assert (Components(cwd) + k)[|Components(cwd)|..] == k;
    }
  }

  // ------------------------------------------------------ temporary names

  /** The position of the last dot, or the length if there is none. */
  function LastDot(s: string): (n: nat)
    ensures n <= |s| && (n < |s| ==> s[n] == '.' && '.' !in s[n + 1..]) && (n == |s| ==> '.' !in s)
  {
    if s == [] then 0
    else if s[|s| - 1] == '.' then |s| - 1
    else
      var n := LastDot(s[..|s| - 1]);
      if n == |s| - 1 then |s| else n
  }

  /** A file name without its extension; a leading dot starts no extension. */
  function Stem(name: string): string {
    var n := LastDot(name);
    if n == 0 || n == |name| then name else name[..n]
  }

  const RESTORE_SUFFIX := ".synqro_restore.tmp"

  /** The name given by `with_extension("synqro_restore.tmp")`. */
  function TempName(name: string): string {
    Stem(name) + RESTORE_SUFFIX
  }

  /** A file is never its own temporary file. */
  lemma TempNameDiffers(name: string)
    ensures TempName(name) != name
  {
    var n := LastDot(name);
    var temp := TempName(name);
    if 0 < n < |name| && |temp| == |name| {
      // The suffix has a second dot where the extension of the name has none.
      assert temp[n + 15] == RESTORE_SUFFIX[15] == '.';
      assert name[n + 15] == name[n + 1..][14];
    }
  }

  // ---------------------------------------------- the paths a restore writes

  /** A path as the system takes it: from the working directory on, unless it is absolute. */
  function Resolve(cwd: seq<Component>, cs: seq<Component>): seq<Component> {
    if cs != [] && cs[0] == Root then cs
    else cwd + (if cs != [] && cs[0] == Current then cs[1..] else cs)
  }

  lemma ResolveParts(w: seq<Component>, lead: seq<Component>, kept: seq<Component>)
    requires lead == [] || lead == [Current]
    requires kept != [] ==> kept[0] == Parent || kept[0].Normal?
    ensures Resolve(w, lead + kept) == w + kept
  {
    if lead == [] { assert lead + kept == kept; } else { assert (lead + kept)[1..] == kept; }
  }

  /** Resolving a path at the working directory is joining the two. */
  lemma ResolveIsJoin(cwd: string, path: string)
    requires cwd != []
    ensures Components(Join(cwd, path)) == Resolve(Components(cwd), Components(path))
  {
    if !IsAbsolute(path) {
      var kept := Kept(Pieces(path));
      ComponentsOfJoin(cwd, path);
      if kept != [] { KeptPlain(Pieces(path), 0); }
      ResolveParts(Components(cwd), Lead(path), kept);
    }
  }

  /** `with_extension("synqro_restore.tmp")`: a path without a file name stays as it is. */
  function TempPath(cs: seq<Component>): seq<Component> {
    if cs != [] && cs[|cs| - 1].Normal? then cs[..|cs| - 1] + [Normal(TempName(cs[|cs| - 1].name))] else cs
  }

  lemma TempOfName(w: seq<Component>, name: string)
    ensures Resolve(w, TempPath([Normal(name)])) == w + [Normal(TempName(name))]
  {
    var temp := TempName(name);
    assert [Normal(name)][..0] + [Normal(temp)] == [Normal(temp)];
    ResolveParts(w, [], [Normal(temp)]);
    assert [] + [Normal(temp)] == [Normal(temp)];
  }

  lemma TempBelow(cs: seq<Component>, dir: seq<Component>)
    requires Below(cs, dir) && |cs| > |dir|
    ensures Below(TempPath(cs), dir)
  {
    var n := |cs| - 1;
    assert cs[|dir|..][n - |dir|].Normal?;
    assert forall i | |dir| <= i < n :: TempPath(cs)[i] == cs[i] == cs[|dir|..][i - |dir|];
  }

  /** Below the version directory or below the working directory. */
  predicate Inside(p: seq<Component>, v: seq<Component>, w: seq<Component>) {
    Below(p, v) || Below(p, w)
  }

  /** Is the temporary name of the version directory itself inside? A caller can check this. */
  predicate SiblingInside(v: seq<Component>, w: seq<Component>) {
    |v| <= 1 || w <= v[..|v| - 1] || w == TempPath(v)
  }

  lemma SiblingInsideExact(v: seq<Component>, w: seq<Component>)
    requires v != [] && v[0] == Root && AllNormal(v[1..]) && w != []
    ensures SiblingInside(v, w) <==> Inside(TempPath(v), v, w)
  {
    var n := |v| - 1;
    if n > 0 {
      assert v[n] == v[1..][n - 1];
      TempNameDiffers(v[n].name);
      SiblingOf(v, w, v[n].name);
    }
  }

  lemma SiblingOf(v: seq<Component>, w: seq<Component>, name: string)
    requires |v| > 1 && AllNormal(v[1..]) && w != [] && v[|v| - 1] == Normal(name) && TempName(name) != name
    ensures Inside(TempPath(v), v, w) <==> w <= v[..|v| - 1] || w == TempPath(v)
  {
    var n := |v| - 1;
    var t := TempPath(v);
    assert t[n] != v[n] && t[..n] == v[..n];
    assert forall i | 1 <= i < n :: t[i] == v[1..][i - 1];
    if w <= t && |w| <= n { assert w == t[..|w|] == t[..n][..|w|]; }
    if w <= v[..n] { assert w == t[..n][..|w|] == t[..|w|]; }
    if w == t { assert t[|w|..] == []; }
  }

  /** The temporary file that is written for an accepted entry. */
  function TempFor(cwd: string, entry: string): seq<Component> {
    Resolve(Components(cwd), TempPath(Components(entry)))
  }

  lemma ResolveTemp(w: seq<Component>, lead: seq<Component>, kept: seq<Component>)
    requires (lead == [] || lead == [Current]) && AllNormal(kept)
    ensures Resolve(w, TempPath(lead + kept)) == w + TempPath(kept)
  {
    if kept == [] {
      assert lead + kept == lead;
    } else {
      var cs := lead + kept;
      assert cs[..|cs| - 1] == lead + kept[..|kept| - 1];
      assert TempPath(cs) == lead + TempPath(kept);
      ResolveParts(w, lead, TempPath(kept));
    }
  }

  lemma AppendBelow(w: seq<Component>, more: seq<Component>)
    requires AllNormal(more)
    ensures Below(w + TempPath(more), w)
  {
    assert (w + TempPath(more))[|w|..] == TempPath(more);
  }

  /** A relative entry never writes its temporary file outside the working directory. */
  lemma RelativeTemp(cwd: string, entry: string)
    requires !IsAbsolute(entry) && ".." !in Pieces(entry)
    ensures AllNormal(Kept(Pieces(entry)))
    ensures TempFor(cwd, entry) == Components(cwd) + TempPath(Kept(Pieces(entry)))
    ensures Below(TempFor(cwd, entry), Components(cwd))
  {
    var kept := Kept(Pieces(entry));
    KeptParent(Pieces(entry));
    forall i | 0 <= i < |kept| ensures kept[i].Normal? { KeptPlain(Pieces(entry), i); }
    ResolveTemp(Components(cwd), Lead(entry), kept);
    AppendBelow(Components(cwd), kept);
  }

  lemma LongerUnlessEqual(cs: seq<Component>, v: seq<Component>)
    requires v <= cs && cs != v
    ensures |cs| > |v|
  {
    assert cs[..|v|] == v;
  }

  /**
   * The temporary file of an accepted entry lies inside, except for an absolute entry that names the version
   * directory itself: then it lies next to the version directory.
   */
  lemma TempStaysInside(dir: string, cwd: string, entry: string)
    requires IsCanonical(dir) && IsCanonical(cwd) && UnderParent(Join(dir, entry), dir)
    ensures var v, w := Components(dir), Components(cwd);
            Inside(TempFor(cwd, entry), v, w) <==>
            !(IsAbsolute(entry) && Components(entry) == v) || SiblingInside(v, w)
  {
    var v, w := Components(dir), Components(cwd);
    AcceptedEntries(dir, entry);
    if IsAbsolute(entry) {
      if Components(entry) == v {
        SiblingInsideExact(v, w);
      } else {
        LongerUnlessEqual(Components(entry), v);
        TempBelow(Components(entry), v);
      }
    } else {
      RelativeTemp(cwd, entry);
    }
  }
}
