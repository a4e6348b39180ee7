/**
 Path segments: normalisation, text form and parsing (src/uri.rs).
 */
module Paths {
  import opened Errors
  import opened Sequences
  import opened CharacterClasses
  import opened PercentDecoder
  import opened Codec

  /** Segments between slashes; a leading or trailing slash is an empty segment, `/` alone is `[[]]`. */
  type Path = seq<bytes>

  const DOT: bytes := [46]

  const DOT_DOT: bytes := [46, 46]

  predicate IsAbsolute(path: Path) {
    path != [] && path[0] == []
  }

  predicate CanNavigateUp(path: Path) {
    path != [] && (path[0] == [] ==> |path| > 1)
  }

  // ---- normalize_path ---------------------------------------------------------------------------

  /** The two variables of the loop: the path rebuilt so far and the directory-level flag. */
  datatype Progress = Progress(path: Path, atDirectoryLevel: bool)

  function Step(n: Progress, segment: bytes): Progress {
    if segment == DOT then n.(atDirectoryLevel := true)
    else if segment == DOT_DOT then
      Progress(if CanNavigateUp(n.path) then n.path[..|n.path| - 1] else n.path, true)
    else
      Progress(
        if !n.atDirectoryLevel || segment != [] then n.path + [segment] else n.path,
        segment == [])
  }

  function Steps(n: Progress, segments: Path): Progress
    decreases |segments|
  {
    if segments == [] then n else Steps(Step(n, segments[0]), segments[1..])
  }

  predicate NeedsSlash(n: Progress) {
    n.atDirectoryLevel && n.path != [] && n.path[|n.path| - 1] != []
  }

  function Finish(n: Progress): Path {
    if NeedsSlash(n) then n.path + [[]] else n.path
  }

  function Normalize(path: Path): Path {
    Finish(Steps(Progress([], false), path))
  }

  method NormalizePath(original: Path) returns (normalized: Path)
    ensures normalized == Normalize(original)
  {
    var atDirectoryLevel := false;
    normalized := [];
    Empty(original);
    for i := 0 to |original|
      invariant Finish(Steps(Progress(normalized, atDirectoryLevel), original[i..])) == Normalize(original)
    {
      hide Finish, Normalize;
      assert original[i..][1..] == original[i + 1..];
      var segment := original[i];
      if segment == DOT {
        atDirectoryLevel := true;
      } else if segment == DOT_DOT {
        if normalized != [] && CanNavigateUp(normalized) {
          normalized := normalized[..|normalized| - 1];
        }
        atDirectoryLevel := true;
      } else {
        var newAtDirectoryLevel := segment == [];
        if !atDirectoryLevel || segment != [] {
          normalized := normalized + [segment];
        }
        atDirectoryLevel := newAtDirectoryLevel;
      }
    }
    if atDirectoryLevel && normalized != [] && normalized[|normalized| - 1] != [] {
      normalized := normalized + [[]];
    }
  }

  // ---- Normal paths -----------------------------------------------------------------------------

  predicate IsDot(segment: bytes) {
    segment == DOT || segment == DOT_DOT
  }

  predicate NoDots(path: Path) {
    forall i | 0 <= i < |path| :: !IsDot(path[i])
  }

  predicate NoEmptyRuns(path: Path) {
    forall i | 0 < i < |path| :: path[i - 1] != [] || path[i] != []
  }

  /** No `.` or `..` segment and no two adjacent empty segments. */
  predicate IsNormal(path: Path) {
    NoDots(path) && NoEmptyRuns(path)
  }

  predicate EndsEmpty(path: Path) {
    path != [] && path[|path| - 1] == []
  }

  /** What holds of the rebuilt path after `read` has been processed. */
  ghost predicate Invariant(n: Progress, read: Path) {
    && IsNormal(n.path)
    && (EndsEmpty(n.path) ==> n.atDirectoryLevel)
    && (n.path == [] ==> read == [] || n.atDirectoryLevel)
    && (read == [] ==> n == Progress([], false))
    && (IsAbsolute(n.path) <==> IsAbsolute(read))
    && |n.path| + (if NeedsSlash(n) then 1 else 0) <= |read|
  }

  lemma NormalPush(path: Path, segment: bytes)
    requires IsNormal(path) && !IsDot(segment) && !(EndsEmpty(path) && segment == [])
    ensures IsNormal(path + [segment])
  {
  }

  lemma StepInvariant(n: Progress, read: Path, segment: bytes)
    requires Invariant(n, read)
    ensures Invariant(Step(n, segment), read + [segment])
  {
    if !IsDot(segment) && (!n.atDirectoryLevel || segment != []) {
      NormalPush(n.path, segment);
    }
  }

  lemma {:induction false} StepsInvariant(n: Progress, read: Path, segments: Path)
    requires Invariant(n, read)
    ensures Invariant(Steps(n, segments), read + segments)
    decreases |segments|
  {
    hide Invariant, Step;
    if segments == [] {
      Empty(read);
    } else {
      StepInvariant(n, read, segments[0]);
      StepsInvariant(Step(n, segments[0]), read + [segments[0]], segments[1..]);
      Shift(read, segments);
    }
  }

  /** The result is normal, no longer than the input, and absolute exactly if the input is. */
  lemma NormalizeResult(path: Path)
    ensures IsNormal(Normalize(path))
    ensures |Normalize(path)| <= |path|
    ensures IsAbsolute(Normalize(path)) <==> IsAbsolute(path)
  {
    StepsInvariant(Progress([], false), [], path);
    Empty(path);
    var n := Steps(Progress([], false), path);
    if NeedsSlash(n) {
      NormalPush(n.path, []);
    }
  }

  lemma {:induction false} NormalSteps(done: Path, rest: Path)
    requires IsNormal(done + rest)
    ensures Steps(Progress(done, EndsEmpty(done)), rest) == Progress(done + rest, EndsEmpty(done + rest))
    decreases |rest|
  {
    if rest == [] {
      Empty(done);
    } else {
      var s := rest[0];
      Shift(done, rest);
      var all := done + rest;
      assert all[|done|] == s;
      assert done != [] ==> all[|done| - 1] == done[|done| - 1];
      assert Step(Progress(done, EndsEmpty(done)), s) == Progress(done + [s], EndsEmpty(done + [s]));
      NormalSteps(done + [s], rest[1..]);
    }
  }

  /** The fixed points of `normalize_path` are exactly the normal paths. */
  lemma NormalizeFixedPoints(path: Path)
    ensures Normalize(path) == path <==> IsNormal(path)
  {
    hide Steps;
    NormalizeResult(path);
    if IsNormal(path) {
      Empty(path);
      NormalSteps([], path);
    }
  }

  lemma NormalizeIdempotent(path: Path)
    ensures Normalize(Normalize(path)) == Normalize(path)
  {
    hide Normalize;
    NormalizeResult(path);
    NormalizeFixedPoints(Normalize(path));
  }

  // ---- Text -------------------------------------------------------------------------------------

  function SegmentText(segment: bytes): string {
    Encode(segment, PCHAR)
  }

  /** The encoded segments joined with slashes. */
  function JoinText(path: Path): string {
    if path == [] then []
    else if |path| == 1 then SegmentText(path[0])
    else SegmentText(path[0]) + "/" + JoinText(path[1..])
  }

  /** The path as `Display` writes it. */
  function PathText(path: Path): string {
    if path == [[]] then "/" else JoinText(path)
  }

  /** The path part of `Display::fmt`. */
  method DisplayPath(path: Path) returns (f: string)
    ensures f == PathText(path)
  {
    hide Encode;
    f := [];
    if IsAbsolute(path) && |path| == 1 {
      f := f + "/";
      assert path == [[]];
    }
    ghost var start := f;
    ghost var rest := JoinText(path); // what is still to be written
    Empty(path);
    for i := 0 to |path|
      invariant rest == JoinText(path[i..])
      invariant f + rest == start + JoinText(path)
    {
      hide JoinText;
      var text := EncodeElement(path[i], PCHAR);
      JoinTextAt(path, i);
      var piece := if i + 1 < |path| then text + "/" else text;
      rest := JoinText(path[i + 1..]);
      Assoc(f, piece, rest);
      f := f + piece;
    }
    Empty(f);
    SlashAlone(path);
  }

  lemma SlashAlone(path: Path)
    ensures path == [[]] ==> JoinText(path) == []
  {
    SpecialTexts();
  }

  lemma JoinTextAt(path: Path, i: nat)
    requires i < |path|
    ensures JoinText(path[i..]) ==
            (if i + 1 < |path| then SegmentText(path[i]) + "/" else SegmentText(path[i])) + JoinText(path[i + 1..])
  {
    assert path[i..][1..] == path[i + 1..];
    Empty(SegmentText(path[i]));
  }

  function DecodeSegments(parts: seq<string>): Result<Path> {
    if parts == [] then Ok([]) else
      var segment :- Decode(parts[0], PCHAR, InPath);
      var rest :- DecodeSegments(parts[1..]);
      Ok([segment] + rest)
  }

  function ParsePath(s: string): Result<Path> {
    if s == "/" then Ok([[]])
    else if s == "" then Ok([])
    else DecodeSegments(Split(s, '/'))
  }

  /** An encoded segment contains no delimiter, and is empty, `.` or `..` only for that segment. */
  lemma SegmentTextFacts(segment: bytes)
    ensures Avoids(SegmentText(segment), {'/', '?', '#'})
    ensures SegmentText(segment) == [] <==> segment == []
    ensures SegmentText(segment) == "." <==> segment == DOT
    ensures SegmentText(segment) == ".." <==> segment == DOT_DOT
  {
    hide Decode, Encode;
    EncodeAvoids(segment, PCHAR, {'/', '?', '#'});
    SpecialTexts();
    SegmentRoundTrip(segment);
    SegmentRoundTrip([]);
    SegmentRoundTrip(DOT);
    SegmentRoundTrip(DOT_DOT);
  }

  lemma SpecialTexts()
    ensures SegmentText([]) == [] && SegmentText(DOT) == "." && SegmentText(DOT_DOT) == ".."
  {
    assert EncodeByte(46, PCHAR) == ".";
    assert DOT[1..] == [];
    assert DOT_DOT[1..] == DOT;
  }

  lemma {:induction false} DecodeJoined(path: Path)
    requires path != []
    ensures DecodeSegments(Split(JoinText(path), '/')) == Ok(path)
  {
    hide SegmentText, Decode, DecodeSegments;
    var e := SegmentText(path[0]);
    SegmentTextFacts(path[0]);
    SegmentRoundTrip(path[0]);
    SplitPeel(e, JoinText(path[1..]), '/');
    Uncons(path);
    if |path| > 1 {
      hide Split;
      DecodeJoined(path[1..]);
      DecodeSegmentsCons(e, Split(JoinText(path[1..]), '/'));
    } else {
      DecodeSegmentsOne(e);
      assert path == [path[0]];
    }
  }

  lemma DecodeSegmentsOne(e: string)
    requires Decode(e, PCHAR, InPath).Ok?
    ensures DecodeSegments([e]) == Ok([Decode(e, PCHAR, InPath).value])
  {
    var segment := Decode(e, PCHAR, InPath).value;
    assert [e][1..] == [];
    Empty([segment]);
  }

  lemma DecodeSegmentsCons(e: string, parts: seq<string>)
    requires Decode(e, PCHAR, InPath).Ok? && DecodeSegments(parts).Ok?
    ensures DecodeSegments([e] + parts) == Ok([Decode(e, PCHAR, InPath).value] + DecodeSegments(parts).value)
  {
    HeadTail(e, parts);
  }

  lemma SegmentRoundTrip(segment: bytes)
    ensures Decode(SegmentText(segment), PCHAR, InPath) == Ok(segment)
  {
    DecodeEncode(segment, PCHAR, PCHAR, InPath);
  }

  /** When the joined text is empty or a single slash. */
  lemma JoinTextSpecial(path: Path)
    ensures JoinText(path) == [] <==> path == [] || path == [[]]
    ensures JoinText(path) == "/" <==> path == [[], []]
  {
    hide SegmentText;
    if |path| >= 1 {
      SegmentTextFacts(path[0]);
      var e := SegmentText(path[0]);
      if |path| >= 2 {
        SegmentTextFacts(path[1]);
        var rest := JoinText(path[1..]);
        var t := e + "/" + rest;
        assert t[|e|] == '/';
        assert t == "/" ==> e == [] && rest == [];
        JoinTextEmpty(path[1..]);
        assert e == [] && rest == [] ==> t == "/";
        assert path[1..] == [[]] ==> |path| == 2 && path[1] == [];
        assert path == [path[0]] + path[1..];
      } else {
        assert path == [path[0]];
      }
    }
  }

  lemma JoinTextEmpty(path: Path)
    requires path != []
    ensures JoinText(path) == [] <==> path == [[]]
  {
    SegmentTextFacts(path[0]);
    assert |path| == 1 ==> path == [path[0]];
  }

  /** A printed path parses back, except `["", ""]`, whose text is that of `[""]`. */
  lemma PathRoundTrip(path: Path)
    ensures ParsePath(PathText(path)) == Ok(path) <==> path != [[], []]
  {
    hide JoinText, DecodeSegments, Split;
    JoinTextSpecial(path);
    if path != [] && path != [[]] && path != [[], []] {
      DecodeJoined(path);
    }
  }

  lemma {:induction false} JoinTextAvoids(path: Path)
    ensures Avoids(JoinText(path), {'?', '#'})
  {
    hide SegmentText;
    if path != [] {
      SegmentTextFacts(path[0]);
      JoinTextAvoids(path[1..]);
    }
  }

  /** The text of a path starts with a slash exactly if the path is absolute. */
  lemma PathTextFacts(path: Path)
    ensures Avoids(PathText(path), {'?', '#'})
    ensures PathText(path) == [] <==> path == []
    ensures PathText(path) != [] && PathText(path)[0] == '/' <==> IsAbsolute(path)
  {
    hide SegmentText;
    JoinTextAvoids(path);
    JoinTextSpecial(path);
    if path != [] {
      SegmentTextFacts(path[0]);
    }
  }
}
