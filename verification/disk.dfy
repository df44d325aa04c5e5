/**
 * A file system as a map from paths to files. Each operation is given by the states that a crash during it can
 * leave behind; the last of them is the state after it.
 */
module Disk {
  import opened Text
  import opened Paths

  type Path = seq<Component>
  type Mode = m: int | 0 <= m < 0x1_0000_0000

  datatype File = File(content: bytes, mode: Mode)

  type Files = map<Path, File>

  /** The states passed through, oldest first. */
  type Trace = seq<Files>

  function Last(start: Files, trace: Trace): Files {
    if trace == [] then start else trace[|trace| - 1]
  }

  /** One trace after another. */
  lemma Glue(start: Files, end: Files, before: Trace, after: Trace, x: Trace, y: Trace)
    requires after == before + x + y && end == Last(Last(start, x), y)
    ensures after == before + (x + y) && end == Last(start, x + y)
  {}

  lemma LastConcat(start: Files, x: Trace, y: Trace)
    ensures Last(start, x + y) == Last(Last(start, x), y)
  {}

  /** At every state the file is as it was at the start. */
  ghost predicate Untouched(start: Files, t: Trace, p: Path) {
    forall k | 0 <= k < |t| :: SameAt(t[k], start, p)
  }

  lemma UntouchedConcat(start: Files, x: Trace, y: Trace, p: Path)
    requires Untouched(start, x, p) && Untouched(Last(start, x), y, p)
    ensures Untouched(start, x + y, p) && SameAt(Last(start, x), start, p)
  {}

  /** A file that is overwritten keeps its mode; a new one gets the default. */
  function ModeFor(files: Files, p: Path, defaultMode: Mode): Mode {
    if p in files then files[p].mode else defaultMode
  }

  function Written(files: Files, p: Path, content: bytes, defaultMode: Mode): Files {
    files[p := File(content, ModeFor(files, p, defaultMode))]
  }

  /** Writing is not atomic: the file is emptied, then grows byte by byte up to `count` bytes. */
  function WriteTrace(files: Files, p: Path, content: bytes, count: nat, defaultMode: Mode): (r: Trace)
    requires count <= |content|
    ensures |r| == count + 1 && r[count] == Written(files, p, content[..count], defaultMode)
    ensures forall k | 0 <= k <= count :: r[k] == Written(files, p, content[..k], defaultMode)
  {
    seq(count + 1, k requires 0 <= k <= count => Written(files, p, content[..k], defaultMode))
  }

  function SetMode(files: Files, p: Path, mode: Mode): Files {
    if p in files then files[p := files[p].(mode := mode)] else files
  }

  /** Renaming is atomic and replaces the destination. */
  function Rename(files: Files, from: Path, to: Path): Files {
    if from in files then (files - {from})[to := files[from]] else files
  }

  function Remove(files: Files, p: Path): Files {
    files - {p}
  }

  /** The two states agree on `p`. */
  predicate SameAt(a: Files, b: Files, p: Path) {
    (p in a <==> p in b) && (p in a ==> a[p] == b[p])
  }

  /** A disk in use: its files, and for specification every state it has been in. */
  class Drive {
    var files: Files
    ghost var history: Trace
    const defaultMode: Mode

    constructor (files: Files, defaultMode: Mode)
      ensures this.files == files && this.defaultMode == defaultMode && history == [] && Valid()
    {
      this.files, this.defaultMode, this.history := files, defaultMode, [];
    }

    ghost predicate Valid()
      reads this
    {
      history != [] ==> history[|history| - 1] == files
    }

    method Write(p: Path, content: bytes, count: nat)
      requires Valid() && count <= |content|
      modifies this
      ensures Valid()
      ensures history == old(history) + WriteTrace(old(files), p, content, count, defaultMode)
      ensures files == Written(old(files), p, content[..count], defaultMode)
    {
      var start := files;
      var mode := ModeFor(files, p, defaultMode);
      ghost var trace := WriteTrace(start, p, content, count, defaultMode);
      files := files[p := File([], mode)];
      history := history + [files];
      assert content[..0] == [] && trace[..1] == [trace[0]];
      for k := 0 to count
        invariant files == start[p := File(content[..k], mode)]
        invariant history == old(history) + trace[..k + 1]
      {
        files := files[p := File(content[..k + 1], mode)];
        history := history + [files];
        assert trace[..k + 2] == trace[..k + 1] + [trace[k + 1]];
      }
      assert trace[..count + 1] == trace;
    }

    method ChangeMode(p: Path, mode: Mode)
      requires Valid()
      modifies this
      ensures Valid() && files == SetMode(old(files), p, mode) && history == old(history) + [files]
    {
      files := if p in files then files[p := files[p].(mode := mode)] else files;
      history := history + [files];
    }

    method Move(from: Path, to: Path)
      requires Valid()
      modifies this
      ensures Valid() && files == Rename(old(files), from, to) && history == old(history) + [files]
    {
      if from in files {
        var f := files[from];
        files := (files - {from})[to := f];
      }
      history := history + [files];
    }

    method Delete(p: Path)
      requires Valid()
      modifies this
      ensures Valid() && files == Remove(old(files), p) && history == old(history) + [files]
    {
      files := files - {p};
      history := history + [files];
    }
  }
}
