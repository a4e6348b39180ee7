/**
 Which segments of a path survive when it is normalised, said on the path alone.
 */
module Survivors {
  import opened Errors
  import opened Sequences
  import opened PercentDecoder
  import opened Paths
  import opened DotSegments

  /** What is left to read after the `..` that removes the first of `depth` segments, if there is one. */
  function Removed(depth: nat, dir: bool, segments: Path): (r: Option<Path>)
    requires depth > 0
    ensures r.Some? ==> |r.value| < |segments|
    decreases |segments|
  {
    if segments == [] then None
    else
      var s, rest := segments[0], segments[1..];
      if s == DOT_DOT then
        if depth == 1 then Some(rest) else Removed(depth - 1, true, rest)
      else if Closes(dir, s) then Removed(depth, true, rest)
      else Removed(depth + 1, s == [], rest)
  }

  /** The path from the first segment on that no later `..` removes; empty if there is none. */
  function Surviving(path: Path, dir: bool): Path
    decreases |path|
  {
    if path == [] then []
    else if Closes(dir, path[0]) then Surviving(path[1..], true)
    else
      match Removed(1, path[0] == [], path[1..])
      case None => path
      case Some(rest) => Surviving(rest, true)
  }

  /** Either the first segment stays first, or a `..` leaves nothing. */
  lemma {:induction false} FirstStays(kept: Path, dir: bool, segments: Path)
    requires kept != [] && kept[0] != []
    ensures var end := Steps(Progress(kept, dir), segments);
            match Removed(|kept|, dir, segments)
            case Some(rest) => end == Steps(Progress([], true), rest)
            case None =>
              && end.path != [] && end.path[0] == kept[0]
              && (|kept| > 1 || dir || segments != [] ==> |end.path| > 1 || end.atDirectoryLevel)
    decreases |segments|
  {
    if segments != [] {
      hide Step;
      var s := segments[0];
      StepRelative(kept, dir, s);
      if !(s == DOT_DOT && |kept| == 1) {
        FirstStays(Kept(kept, dir, s), IsDot(s) || s == [], segments[1..]);
      }
    }
  }

  /** The first segment of the normal form, and whether it is the only one. */
  lemma {:induction false} NormalizeFirst(path: Path, dir: bool)
    requires dir || Relative(path)
    ensures var n, q := Finish(Steps(Progress([], dir), path)), Surviving(path, dir);
            && (n == [] <==> q == [])
            && (q != [] ==> n[0] == q[0] && q[0] != [] && (|n| == 1 <==> |q| == 1))
    decreases |path|
  {
    if path != [] {
      var s, rest := path[0], path[1..];
      StepRelative([], dir, s);
      Empty([s]);
      if Closes(dir, s) {
        NormalizeFirst(rest, true);
      } else {
        FirstStays([s], false, rest);
        if Removed(1, false, rest).Some? {
          NormalizeFirst(Removed(1, false, rest).value, true);
        }
      }
    }
  }

  // ---- Every segment ----------------------------------------------------------------------------

  /** What has been read before position `i` ends at a directory: a dot segment or an empty one. */
  predicate AtDirectory(path: Path, i: nat)
    requires i <= |path|
  {
    i > 0 && (path[i - 1] == DOT || path[i - 1] == DOT_DOT || path[i - 1] == [])
  }

  /** A name, or an empty segment that does not follow a directory. */
  predicate Written(path: Path, i: nat)
    requires i < |path|
  {
    path[i] != DOT && path[i] != DOT_DOT && (path[i] == [] ==> !AtDirectory(path, i))
  }

  /**
   How many `..` from position `i` on are left for segments before `i`, each having removed the nearest
   segment before it that was still there.
   */
  function Ups(path: Path, i: nat): nat
    requires i <= |path|
    decreases |path| - i
  {
    if i == |path| then 0
    else
      var later := Ups(path, i + 1);
      if path[i] == DOT_DOT then later + 1
      else if Written(path, i) && later > 0 then later - 1
      else later
  }

  /** No later `..` removes the segment; nothing removes the root. */
  predicate Survives(path: Path, i: nat)
    requires i < |path|
  {
    Written(path, i) && (Ups(path, i + 1) == 0 || (i == 0 && path[0] == []))
  }

  /** The survivors from position `i` on, in order. */
  function SurvivorsFrom(path: Path, i: nat): Path
    requires i <= |path|
    decreases |path| - i
  {
    if i == |path| then []
    else (if Survives(path, i) then [path[i]] else []) + SurvivorsFrom(path, i + 1)
  }

  /** The survivors, and a closing slash if the path ends at a directory. */
  function NormalForm(path: Path): Path {
    var kept := SurvivorsFrom(path, 0);
    if AtDirectory(path, |path|) && kept != [] && kept[|kept| - 1] != [] then kept + [[]] else kept
  }

  /** `kept` after `n` more `..`. */
  function PopMany(kept: Path, n: nat): Path
    decreases n
  {
    if n == 0 || !CanNavigateUp(kept) then kept else PopMany(kept[..|kept| - 1], n - 1)
  }

  lemma PopManyPush(kept: Path, s: bytes, n: nat)
    requires CanNavigateUp(kept + [s])
    ensures n > 0 ==> PopMany(kept + [s], n) == PopMany(kept, n - 1)
  {
    assert (kept + [s])[..|kept|] == kept;
  }

  /** The rest of the loop, whatever was kept before. */
  lemma {:induction false} StepsSurvivors(kept: Path, path: Path, i: nat)
    requires i <= |path| && (i == 0 ==> kept == [] && !IsAbsolute(path))
    requires kept == [] ==> i == 0 || AtDirectory(path, i)
    ensures Steps(Progress(kept, AtDirectory(path, i)), path[i..]) ==
            Progress(PopMany(kept, Ups(path, i)) + SurvivorsFrom(path, i), AtDirectory(path, |path|))
    decreases |path| - i
  {
    if i == |path| {
      Empty(kept);
    } else {
      var s, rest := path[i], path[i..];
      DropDrop(path, i, 1);
      var next := Step(Progress(kept, AtDirectory(path, i)), s);
      StepWritten(kept, path, i);
      StepsSurvivors(next.path, path, i + 1);
      SurvivorsStep(kept, path, i);
    }
  }

  lemma StepWritten(kept: Path, path: Path, i: nat)
    requires i < |path|
    ensures Step(Progress(kept, AtDirectory(path, i)), path[i]) ==
            Progress(
              if path[i] == DOT_DOT then PopMany(kept, 1) else if Written(path, i) then kept + [path[i]] else kept,
              AtDirectory(path, i + 1))
  {
    assert PopMany(kept, 1) == if CanNavigateUp(kept) then PopMany(kept[..|kept| - 1], 0) else kept;
  }

  lemma SurvivorsStep(kept: Path, path: Path, i: nat)
    requires i < |path| && (i == 0 ==> !IsAbsolute(path))
    requires kept == [] ==> i == 0 || AtDirectory(path, i)
    ensures var kept' :=
              if path[i] == DOT_DOT then PopMany(kept, 1) else if Written(path, i) then kept + [path[i]] else kept;
            PopMany(kept', Ups(path, i + 1)) + SurvivorsFrom(path, i + 1) ==
            PopMany(kept, Ups(path, i)) + SurvivorsFrom(path, i)
  {
    var later, rest := Ups(path, i + 1), SurvivorsFrom(path, i + 1);
    Empty(rest);
    if path[i] == DOT_DOT {
      PopManyMore(kept, later);
    } else if Written(path, i) {
      PopManyPush(kept, path[i], later);
      Assoc(kept, [path[i]], rest);
    }
  }

  lemma PopManyMore(kept: Path, n: nat)
    ensures PopMany(PopMany(kept, 1), n) == PopMany(kept, n + 1)
  {
    assert CanNavigateUp(kept) ==> PopMany(kept, 1) == kept[..|kept| - 1];
  }

  /** Normalising a path keeps exactly its survivors, in order, and closes a directory with a slash. */
  lemma NormalizeIsNormalForm(path: Path)
    ensures Normalize(path) == NormalForm(path)
  {
    hide Steps, SurvivorsFrom, AtDirectory;
    if IsAbsolute(path) {
      AbsoluteSurvivors(path);
    } else {
      RelativeSurvivors(path);
    }
  }

  lemma NothingToPop(n: nat)
    ensures PopMany([], n) == [] && PopMany(ROOT, n) == ROOT
  {
  }

  lemma RelativeSurvivors(path: Path)
    requires !IsAbsolute(path)
    ensures Steps(Progress([], false), path) == Progress(SurvivorsFrom(path, 0), AtDirectory(path, |path|))
  {
    hide Steps, SurvivorsFrom, Ups, PopMany;
    Empty(path);
    StepsSurvivors([], path, 0);
    Empty(SurvivorsFrom(path, 0));
    NothingToPop(Ups(path, 0));
  }

  lemma AbsoluteSurvivors(path: Path)
    requires IsAbsolute(path)
    ensures Steps(Progress([], false), path) == Progress(SurvivorsFrom(path, 0), AtDirectory(path, |path|))
  {
    assert [] + [path[0]] == ROOT;
    assert Step(Progress([], false), path[0]) == Progress(ROOT, true);
    StepsSurvivors(ROOT, path, 1);
    NothingToPop(Ups(path, 1));
  }
}
