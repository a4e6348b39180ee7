/**
 Reference resolution (src/uri.rs) against section 5.2 of RFC 3986.
 */
module Resolution {
  import opened Errors
  import opened Sequences
  import opened PercentDecoder
  import opened Codec
  import opened CharacterClasses
  import opened Ascii
  import opened Authorities
  import opened Paths
  import opened DotSegments
  import opened LoneBases
  import opened Survivors
  import opened Components
  import opened Uris
  import opened RoundTrips

  /** The base path without its last segment (unless it is the only one), followed by the reference's path. */
  function MergedPath(base: Path, ref: Path): Path {
    (if |base| > 1 then base[..|base| - 1] else base) + ref
  }

  /** What `resolve` computes. */
  function Resolve(base: Uri, ref: Uri): Uri {
    if ref.scheme.Some? then ref.(path := Normalize(ref.path))
    else if ref.authority.Some? then ref.(scheme := base.scheme, path := Normalize(ref.path))
    else if ref.path == [] then
      base.(query := if ref.query.None? then base.query else ref.query, fragment := ref.fragment)
    else
      Uri(
        base.scheme,
        base.authority,
        if IsAbsolute(ref.path) then ref.path else Normalize(MergedPath(base.path, ref.path)),
        ref.query,
        ref.fragment)
  }

  /** `Uri::resolve`: the base's path is cloned, popped and extended in place. */
  method ResolveReference(base: Uri, ref: Uri) returns (target: Uri)
    ensures target == Resolve(base, ref)
  {
    var scheme, authority, query := base.scheme, base.authority, ref.query;
    var path;
    if ref.scheme.Some? {
      scheme, authority := ref.scheme, ref.authority;
      path := NormalizePath(ref.path);
    } else if ref.authority.Some? {
      authority := ref.authority;
      path := NormalizePath(ref.path);
    } else if ref.path == [] {
      path := base.path;
      if ref.query.None? {
        query := base.query;
      }
    } else if IsAbsolute(ref.path) {
      path := ref.path;
    } else {
      path := base.path;
      if |path| > 1 {
        path := path[..|path| - 1];
      }
      path := path + ref.path;
      path := NormalizePath(path);
    }
    target := Uri(scheme, authority, path, query, ref.fragment);
  }

  // ---- Section 5.2 of RFC 3986, on text ---------------------------------------------------------

  /** Everything up to and including the right-most slash. */
  function UpToLastSlash(s: string): string {
    if s == [] then [] else if s[|s| - 1] == '/' then s else UpToLastSlash(s[..|s| - 1])
  }

  /** merge, section 5.2.3. */
  function Merge(base: Parts, refPath: string): string {
    if base.authority.Some? && base.path == [] then "/" + refPath else UpToLastSlash(base.path) + refPath
  }

  /** The algorithm of section 5.2.2. */
  function Transform(base: Parts, ref: Parts): Parts {
    if ref.scheme.Some? then ref.(path := RemoveDotSegments(ref.path, []))
    else if ref.authority.Some? then ref.(scheme := base.scheme, path := RemoveDotSegments(ref.path, []))
    else if ref.path == [] then
      base.(query := if ref.query.Some? then ref.query else base.query, fragment := ref.fragment)
    else
      Parts(
        base.scheme,
        base.authority,
        RemoveDotSegments(if ref.path[0] == '/' then ref.path else Merge(base, ref.path), []),
        ref.query,
        ref.fragment)
  }

  lemma {:induction false} UpToLastSlashOf(a: string, e: string)
    requires Avoids(e, {'/'})
    ensures UpToLastSlash(a + "/" + e) == a + "/"
    ensures UpToLastSlash(e) == []
  {
    if e == [] {
      Empty(a + "/");
    } else {
      var e' := e[..|e| - 1];
      var t := a + "/" + e;
      assert t[..|t| - 1] == a + "/" + e';
      assert t[|t| - 1] == e[|e| - 1];
      UpToLastSlashOf(a, e');
    }
  }

  lemma {:induction false} JoinTextConcat(a: Path, b: Path)
    requires a != [] && b != []
    ensures JoinText(a + b) == JoinText(a) + "/" + JoinText(b)
  {
    hide SegmentText;
    assert (a + b)[0] == a[0] && (a + b)[1..] == a[1..] + b;
    if |a| == 1 {
      assert a[1..] + b == b;
    } else {
      JoinTextConcat(a[1..], b);
      Assoc(SegmentText(a[0]) + "/", JoinText(a[1..]), "/");
      Assoc(SegmentText(a[0]) + "/", JoinText(a[1..]) + "/", JoinText(b));
    }
  }

  /**
   The base paths for which popping the last segment is what merge does: not a single relative
   segment, which `resolve` keeps, and not an empty path after an authority, where merge adds a slash.
   */
  predicate MergeFaithful(base: Uri) {
    && (|base.path| == 1 ==> base.path[0] == [])
    && (base.authority.Some? ==> base.path != [])
  }

  lemma UpToLastSlashOfPath(base: Path)
    ensures UpToLastSlash(PathText(base)) ==
            if |base| > 1 then JoinText(base[..|base| - 1]) + "/" else if base == [[]] then "/" else []
  {
    hide SegmentText, JoinText;
    if |base| > 1 {
      var a, s := base[..|base| - 1], base[|base| - 1];
      assert base == a + [s];
      JoinTextConcat(a, [s]);
      JoinTextOne(s);
      SegmentTextFacts(s);
      UpToLastSlashOf(JoinText(a), SegmentText(s));
    } else if |base| == 1 {
      assert base == [base[0]];
      JoinTextOne(base[0]);
      SegmentTextFacts(base[0]);
      UpToLastSlashOf([], SegmentText(base[0]));
    } else {
      PathTextFacts(base);
    }
  }

  lemma JoinTextOne(s: bytes)
    ensures JoinText([s]) == SegmentText(s)
  {
  }

  /** The merged segments spell the merged text exactly for those bases. */
  lemma MergeIsMergedPath(base: Uri, ref: Path)
    requires ref != [] && !IsAbsolute(ref)
    ensures PathText(MergedPath(base.path, ref)) == Merge(ToParts(base), PathText(ref)) <==> MergeFaithful(base)
  {
    hide JoinText, SegmentText, UpToLastSlash, PrintAuthority;
    var b := base.path;
    var text := PathText(ref);
    PathTextFacts(b);
    UpToLastSlashOfPath(b);
    var popped := if |b| > 1 then b[..|b| - 1] else b;
    assert |MergedPath(b, ref)| == 1 ==> MergedPath(b, ref) == ref;
    if popped != [] {
      JoinTextConcat(popped, ref);
      Assoc(JoinText(popped), "/", text);
      if |b| == 1 {
        MergeSingle(b, text);
      }
    } else {
      Empty(ref);
      Empty(text);
    }
  }

  lemma MergeSingle(b: Path, text: string)
    requires |b| == 1
    ensures JoinText(b) + ("/" + text) == (if b == [[]] then "/" else []) + text <==> b[0] == []
  {
    hide SegmentText;
    JoinTextSpecial(b);
    var e := JoinText(b);
    if b[0] == [] {
      assert b == [[]];
      Empty("/" + text);
    } else {
      assert |e + ("/" + text)| > |[] + text|;
    }
  }

  /** The reference is nothing but a relative path, apart from query and fragment. */
  predicate Merges(ref: Uri) {
    ref.scheme.None? && ref.authority.None? && ref.path != [] && !IsAbsolute(ref.path)
  }

  /** Where `resolve` follows section 5.2.2: a condition per branch, two where paths are merged. */
  predicate ResolveAgrees(base: Uri, ref: Uri) {
    if ref.scheme.Some? || ref.authority.Some? then AgreesWithRfc(ref.path)
    else if ref.path == [] then true
    else if IsAbsolute(ref.path) then NoDots(ref.path)
    else if |base.path| == 1 && base.path[0] != [] then LoneAgrees(base.path[0], ref.path)
    else AgreesWithRfc(MergedPath(base.path, ref.path)) && (base.authority.Some? ==> base.path != [])
  }

  /** Scheme, authority, query and fragment are those of section 5.2.2, whatever becomes of the path. */
  lemma ResolveComponents(base: Uri, ref: Uri)
    ensures var target, rfc := ToParts(Resolve(base, ref)), Transform(ToParts(base), ToParts(ref));
            && target.scheme == rfc.scheme
            && target.authority == rfc.authority
            && target.query == rfc.query
            && target.fragment == rfc.fragment
    ensures Resolve(base, ref).authority ==
            if ref.scheme.Some? || ref.authority.Some? then ref.authority else base.authority
  {
    hide PathText, PrintAuthority, Encode, Normalize, RemoveDotSegments, Merge;
    PathTextFacts(ref.path);
  }

  /** The path is that of section 5.2.2 exactly when `ResolveAgrees` says so. */
  lemma ResolvePathAgrees(base: Uri, ref: Uri)
    ensures ToParts(Resolve(base, ref)).path == Transform(ToParts(base), ToParts(ref)).path <==>
            ResolveAgrees(base, ref)
  {
    hide PathText, PrintAuthority, Encode, AgreesWithRfc, LoneAgrees, Normalize, RemoveDotSegments, NoDots, Merge;
    PathTextFacts(ref.path);
    if ref.scheme.Some? || ref.authority.Some? {
      NormalizeIsRemoveDotSegments(ref.path);
    } else if ref.path != [] {
      if IsAbsolute(ref.path) {
        RemoveDotSegmentsFixed(ref.path);
      } else if |base.path| == 1 && base.path[0] != [] {
        MergeLone(base, PathText(ref.path));
        NormalizeLone(base.path[0], ref.path);
      } else if MergeFaithful(base) {
        MergeIsMergedPath(base, ref.path);
        NormalizeIsRemoveDotSegments(MergedPath(base.path, ref.path));
      } else {
        ResolveAfterAuthority(base, ref);
      }
    }
  }

  /**
   Resolving and then printing the components is the algorithm of section 5.2.2 applied to the
   printed components, exactly when `ResolveAgrees` says so.
   */
  lemma ResolveIsTransform(base: Uri, ref: Uri)
    ensures ToParts(Resolve(base, ref)) == Transform(ToParts(base), ToParts(ref)) <==> ResolveAgrees(base, ref)
  {
    hide ToParts, Resolve, Transform, ResolveAgrees;
    ResolveComponents(base, ref);
    ResolvePathAgrees(base, ref);
  }

  /**
   The target's path in every case, also where it is not that of section 5.2.2: the normal form of the
   reference's own path, a verbatim copy, or the normal form of the reference's path after the base's,
   of which a last segment is dropped unless it is the only one.
   */
  lemma ResolvePath(base: Uri, ref: Uri)
    ensures var path := Resolve(base, ref).path;
            && (ref.scheme.Some? || ref.authority.Some? ==> path == NormalForm(ref.path))
            && (ref.scheme.None? && ref.authority.None? ==>
                  && (ref.path == [] ==> path == base.path)
                  && (IsAbsolute(ref.path) ==> path == ref.path))
            && (Merges(ref) ==>
                  if |base.path| > 1 then path == NormalForm(base.path[..|base.path| - 1] + ref.path)
                  else path == NormalForm(base.path + ref.path))
  {
    hide Normalize, NormalForm;
    NormalizeIsNormalForm(ref.path);
    NormalizeIsNormalForm(MergedPath(base.path, ref.path));
  }

  /** Merge drops a lone segment, `resolve` keeps it. */
  lemma MergeLone(base: Uri, text: string)
    requires |base.path| == 1 && base.path[0] != []
    ensures base.path == [base.path[0]] && Merge(ToParts(base), text) == text
  {
    hide PathText, UpToLastSlash, PrintAuthority;
    UpToLastSlashOfPath(base.path);
    PathTextFacts(base.path);
    Empty(text);
  }

  /** With an authority and an empty base path, merge roots the reference's path and `resolve` does not. */
  lemma ResolveAfterAuthority(base: Uri, ref: Uri)
    requires base.authority.Some? && base.path == [] && Merges(ref)
    ensures PathText(Resolve(base, ref).path) != RemoveDotSegments(Merge(ToParts(base), PathText(ref.path)), [])
  {
    hide PathText, RemoveDotSegments, Normalize, SlashText, JoinText, PrintAuthority;
    Empty(ref.path);
    NormalizeResult(ref.path);
    PathTextFacts(Normalize(ref.path));
    PathTextFacts(base.path);
    RelativeText(ref.path);
    SlashTextJoin(ref.path);
    RemoveFromEmpty(ref.path);
  }

  /** A lone segment `x` resolves as `x/` does. */
  lemma ResolveLoneAsDirectory(base: Uri, ref: Uri)
    requires |base.path| == 1 && base.path[0] != [] && Merges(ref)
    ensures Resolve(base.(path := base.path + [[]]), ref) == Resolve(base, ref)
  {
    assert (base.path + [[]])[..1] == base.path;
  }

  /** Base `a`, reference `b`: the target's path is `a/b`, and `b` in section 5.2.2; any two segments do. */
  lemma LoneSegmentKept(base: Uri, x: bytes, y: bytes)
    requires base.path == [x] && x != [] && !IsDot(x) && y != [] && !IsDot(y)
    ensures var ref := Uri(None, None, [y], None, None);
            && Resolve(base, ref).path == [x, y]
            && Transform(ToParts(base), ToParts(ref)).path == SegmentText(y)
            && !ResolveAgrees(base, ref)
  {
    hide Normalize, RemoveDotSegments, PrintAuthority, Merge, SegmentText;
    var ref: Path := [y];
    assert [x] + ref == [x, y];
    assert ref[1..] == [];
    NormalizeFixedPoints([x, y]);
    NormalizeFixedPoints(ref);
    NormalizeIsRemoveDotSegments(ref);
    PathTextFacts(ref);
    MergeLone(base, PathText(ref));
  }

  /** Base `a`, reference `a/.//..`: both give `a/`, though merge dropped the `a` that `resolve` keeps. */
  lemma LoneSegmentCatchesUp(base: Uri)
    requires base.path == [[97]]
    ensures ResolveAgrees(base, Uri(None, None, [[97], DOT, [], DOT_DOT], None, None))
  {
    var a: bytes := [97];
    var ref: Path := [a, DOT, [], DOT_DOT];
    var kept: Path := [a, a];
    assert ref[1..] == [DOT, [], DOT_DOT] && ref[1..][1..] == [[], DOT_DOT];
    assert ref[1..][1..][1..] == [DOT_DOT];
    var shifted := kept[1..] + [[]];
    assert shifted == [a, []] && shifted[1..] == [[]] && kept[1..] == [a];
    assert CommonPrefix(shifted, kept) == 1;
    assert Pop(kept) == [a];
    assert [DOT_DOT][1..] == [];
    assert CatchesUp(kept, true, Some(1), [DOT_DOT]);
    assert CatchesUp(kept, true, None, [[], DOT_DOT]);
  }

  /** The reference `/a/..` is copied verbatim against every base, where section 5.2.2 gives `/`. */
  lemma AbsoluteCopied(base: Uri)
    ensures var ref := Uri(None, None, [[], [97], DOT_DOT], None, None);
            && Resolve(base, ref).path == ref.path
            && Transform(ToParts(base), ToParts(ref)).path == "/"
            && !ResolveAgrees(base, ref)
  {
    hide RemoveDotSegments, PathText, PrintAuthority;
    var path: Path := [[], [97], DOT_DOT];
    NormalizeToRoot();
    NormalizeIsRemoveDotSegments(path);
    PathTextFacts(path);
    RootText();
    assert !NoDots(path) by { assert IsDot(path[2]); }
  }

  lemma RootText()
    ensures PathText([[]]) == "/"
  {
  }

  lemma NormalizeToRoot()
    ensures var path: Path := [[], [97], DOT_DOT];
            Normalize(path) == [[]] && AgreesWithRfc(path)
  {
    var path: Path := [[], [97], DOT_DOT];
    var a: bytes := [97];
    assert path[1..] == [a, DOT_DOT] && path[1..][1..] == [DOT_DOT] && path[1..][1..][1..] == [];
    assert Step(Progress([], false), []) == Progress([[]], true);
    assert Step(Progress([[]], true), a) == Progress([[], a], false);
    assert Step(Progress([[], a], false), DOT_DOT) == Progress([[]], true);
    assert Steps(Progress([[], a], false), [DOT_DOT]) == Progress([[]], true);
    assert Steps(Progress([[]], true), [a, DOT_DOT]) == Progress([[]], true);
    assert Kept([], true, a) == [a];
    assert Agrees(true, [a], false, 0, [DOT_DOT]);
  }

  lemma MergedTidy(base: Path, ref: Path)
    requires IsAbsolute(base) && Tidy(base) && ref != [] && !IsAbsolute(ref) && Tidy(ref)
    ensures IsAbsolute(MergedPath(base, ref)) && Tidy(MergedPath(base, ref))
  {
  }

  /**
   For a base with an absolute path and a reference that is only a relative path, both without
   interior empty segments, the target's path text is remove_dot_segments of the merged text and the
   other components are those of section 5.2.2.
   */
  lemma ResolveTidy(base: Uri, ref: Uri)
    requires IsAbsolute(base.path) && Tidy(base.path)
    requires Merges(ref) && Tidy(ref.path)
    ensures ToParts(Resolve(base, ref)) == Transform(ToParts(base), ToParts(ref))
    ensures PathText(Resolve(base, ref).path) == RemoveDotSegments(Merge(ToParts(base), PathText(ref.path)), [])
  {
    hide PathText, RemoveDotSegments, Merge, Normalize;
    MergedTidy(base.path, ref.path);
    var merged := MergedPath(base.path, ref.path);
    TidyAgrees([], true, merged[1..]);
    ResolveIsTransform(base, ref);
    NormalizeTidy(merged);
    MergeIsMergedPath(base, ref.path);
  }

  // ---- Resolving what has been resolved ---------------------------------------------------------

  /** The target's path is normal unless it was copied from the base or from an absolute reference. */
  predicate CopiesNormal(base: Uri, ref: Uri) {
    ref.scheme.None? && ref.authority.None? ==>
      (ref.path == [] ==> IsNormal(base.path)) && (IsAbsolute(ref.path) ==> IsNormal(ref.path))
  }

  /**
   A target with a scheme resolves to itself against every base, exactly when a path copied
   verbatim was already a fixed point of `normalize_path`.
   */
  lemma ResolveStable(base: Uri, ref: Uri, other: Uri)
    requires base.scheme.Some? || ref.scheme.Some?
    ensures var target := Resolve(base, ref);
            Resolve(other, target) == target <==> CopiesNormal(base, ref)
  {
    hide Normalize, IsNormal;
    NormalizeFixedPoints(Resolve(base, ref).path);
    NormalizeResult(ref.path);
    NormalizeResult(MergedPath(base.path, ref.path));
  }

  // ---- Resolution and printing ------------------------------------------------------------------

  lemma NormalNotDouble(path: Path)
    requires IsNormal(path)
    ensures !StartsDoubleSlash(path) && path != [[], []]
  {
    if |path| >= 2 {
      assert path[1 - 1] != [] || path[1] != [];
    }
  }

  lemma MergedAbsolute(base: Path, ref: Path)
    requires IsAbsolute(base)
    ensures IsAbsolute(MergedPath(base, ref))
  {
  }

  /** Normalising changes nothing that decides whether a relative path reads as a scheme, but what survives first. */
  lemma NormalizedReads(hasAuthority: bool, path: Path, tail: bytes)
    ensures ReadsAsScheme(hasAuthority, Normalize(path), tail) <==>
            !IsAbsolute(path) && ReadsAsScheme(hasAuthority, Surviving(path, false), tail)
  {
    hide Steps, Finish, Surviving, Before;
    NormalizeResult(path);
    if !IsAbsolute(path) {
      NormalizeFirst(path, false);
    }
  }

  /** The segments of base and reference whose first one is the first of the target's path. */
  function TargetSurvivors(base: Uri, ref: Uri): Path {
    if ref.path == [] then base.path
    else if IsAbsolute(ref.path) then ref.path
    else
      var merged := MergedPath(base.path, ref.path);
      if IsAbsolute(merged) then merged else Surviving(merged, false)
  }

  /** Without a scheme, the target reads as if it had one. */
  predicate TargetReadsAsScheme(base: Uri, ref: Uri) {
    && ref.authority.None?
    && ReadsAsScheme(
         base.authority.Some?,
         TargetSurvivors(base, ref),
         OptionBytes(if ref.path == [] && ref.query.None? then base.query else ref.query) + OptionBytes(ref.fragment))
  }

  lemma TargetReads(base: Uri, ref: Uri)
    requires base.scheme.None? && ref.scheme.None?
    ensures var target := Resolve(base, ref);
            ReadsAsScheme(target.authority.Some?, target.path, TailBytes(target)) <==> TargetReadsAsScheme(base, ref)
  {
    hide Normalize, Surviving, Before;
    var target, merged := Resolve(base, ref), MergedPath(base.path, ref.path);
    NormalizedReads(target.authority.Some?, merged, TailBytes(target));
  }

  /**
   Resolving one Printable URI against another gives a Printable URI, unless neither has a scheme
   and their components read as if there were one; so a target with a scheme always round trips.
   */
  lemma ResolvePrintable(base: Uri, ref: Uri)
    requires Printable(base) && Printable(ref)
    ensures var target := Resolve(base, ref);
            && (Printable(target) <==> base.scheme.Some? || ref.scheme.Some? || !TargetReadsAsScheme(base, ref))
            && (target.scheme.Some? ==> Parse(Print(target)) == Ok(Canon(target)))
  {
    hide Print, Parse, Canon, ReadsAsScheme, ValidScheme, Normalize, IsNormal, StartsDoubleSlash, TargetReadsAsScheme;
    var merged := MergedPath(base.path, ref.path);
    NormalizeResult(ref.path);
    NormalizeResult(merged);
    NormalNotDouble(Normalize(ref.path));
    NormalNotDouble(Normalize(merged));
    if IsAbsolute(base.path) {
      MergedAbsolute(base.path, ref.path);
    }
    if ref.path == [[], []] {
      StartsDouble();
    }
    if Resolve(base, ref).scheme.Some? {
      ParsePrint(Resolve(base, ref));
    } else {
      TargetReads(base, ref);
    }
  }

  lemma StartsDouble()
    ensures StartsDoubleSlash([[], []])
  {
  }

  /** Normalising keeps a URI Printable, unless it has no scheme and what survives first then reads as one. */
  lemma NormalizePrintable(u: Uri)
    requires Printable(u)
    ensures Printable(u.(path := Normalize(u.path))) <==>
            || u.scheme.Some?
            || IsAbsolute(u.path)
            || !ReadsAsScheme(u.authority.Some?, Surviving(u.path, false), TailBytes(u))
  {
    hide ReadsAsScheme, ValidScheme, Normalize, IsNormal, StartsDoubleSlash, Surviving;
    NormalizeResult(u.path);
    NormalNotDouble(Normalize(u.path));
    NormalizedReads(u.authority.Some?, u.path, TailBytes(u));
  }

  /** That happens: `./b:c` is Printable and normalises to `b:c`, which reads as a scheme. */
  lemma NormalizeMayExposeScheme()
    ensures var u := Uri(None, None, [DOT, [98, 58, 99]], None, None);
            Printable(u) && !Printable(u.(path := Normalize(u.path)))
  {
    hide Normalize;
    NormalizeExposed();
  }

  lemma NormalizeExposed()
    ensures Normalize([DOT, [98, 58, 99]]) == [[98, 58, 99]]
  {
    var path: Path := [DOT, [98, 58, 99]];
    assert path[1..] == [[98, 58, 99]];
    assert path[1..][1..] == [];
    assert [] + [path[1]] == [path[1]];
    assert Steps(Progress([], false), path) == Steps(Progress([], true), path[1..]);
    assert Steps(Progress([], true), path[1..]) == Steps(Progress([path[1]], false), []);
  }

  // ---- Every mix of the operations --------------------------------------------------------------

  /** A URI obtained by parsing, normalising and resolving, in any finite combination. */
  datatype Build =
    | Parsed(text: string)
    | Normalized(of: Build)
    | Resolved(base: Build, ref: Build)

  function Eval(b: Build): Result<Uri> {
    match b
    case Parsed(text) => Parse(text)
    case Normalized(of) =>
      var u :- Eval(of);
      Ok(u.(path := Normalize(u.path)))
    case Resolved(base, ref) =>
      var u :- Eval(base);
      var v :- Eval(ref);
      Ok(Resolve(u, v))
  }

  /** The scheme is valid and lower-case, and an authority is followed by an absolute path. */
  ghost predicate WellFormed(u: Uri) {
    && (u.scheme.Some? ==> ValidScheme(u.scheme.value) && Lower(u.scheme.value) == u.scheme.value)
    && (u.authority.Some? ==> IsAbsolute(u.path))
  }

  lemma ParsedWellFormed(s: string, u: Uri)
    ensures Parse(s) == Ok(u) ==> WellFormed(u)
  {
    hide Parse, SplitUri, StrayEscape, ValidScheme, PartsOk, Lower;
    if Parse(s) == Ok(u) {
      ParseIsSplitThenDecode(s);
      RecomposeSplit(s);
      ParsedScheme(SplitUri(s), u);
      ParsedPathStray(SplitUri(s), u);
    }
  }

  lemma NormalizeWellFormed(u: Uri)
    requires WellFormed(u)
    ensures WellFormed(u.(path := Normalize(u.path)))
  {
    hide Normalize, ValidScheme, Lower;
    NormalizeResult(u.path);
  }

  lemma ResolveWellFormed(base: Uri, ref: Uri)
    requires WellFormed(base) && WellFormed(ref)
    ensures WellFormed(Resolve(base, ref))
  {
    hide Normalize, ValidScheme, Lower;
    NormalizeResult(ref.path);
    NormalizeResult(MergedPath(base.path, ref.path));
    if IsAbsolute(base.path) {
      MergedAbsolute(base.path, ref.path);
    }
  }

  /** However it was built, a URI with an authority has an absolute path, and its scheme is valid. */
  lemma {:induction false} BuiltWellFormed(b: Build)
    ensures Eval(b).Ok? ==> WellFormed(Eval(b).value)
  {
    hide Parse, WellFormed, Resolve, Normalize;
    if Eval(b).Ok? {
      match b
      case Parsed(text) => ParsedWellFormed(text, Eval(b).value);
      case Normalized(of) =>
        BuiltWellFormed(of);
        NormalizeWellFormed(Eval(of).value);
      case Resolved(base, ref) =>
        BuiltWellFormed(base);
        BuiltWellFormed(ref);
        ResolveWellFormed(Eval(base).value, Eval(ref).value);
    }
  }

  /**
   The path is one that parsing finds again, in a URI with or without an authority. Only a path taken
   verbatim from parsed text can fail.
   */
  predicate PathReadsBack(b: Build, hasAuthority: bool) {
    match b
    case Parsed(text) => !StrayPath(SplitUri(text).path, hasAuthority)
    case Normalized(_) => true
    case Resolved(base, ref) =>
      && Eval(ref).Ok?
      && var v := Eval(ref).value;
         if v.scheme.Some? || v.authority.Some? || Merges(v) then true
         else if v.path == [] then PathReadsBack(base, hasAuthority)
         else PathReadsBack(ref, hasAuthority)
  }

  /** On the path itself. */
  predicate PathKept(path: Path, hasAuthority: bool) {
    if hasAuthority then path != [[], []] else !StartsDoubleSlash(path)
  }

  lemma NormalKept(path: Path, hasAuthority: bool)
    ensures PathKept(Normalize(path), hasAuthority)
  {
    hide Normalize, StartsDoubleSlash, IsNormal;
    NormalizeResult(path);
    NormalNotDouble(Normalize(path));
  }

  lemma ParsedKept(text: string, hasAuthority: bool)
    requires Parse(text).Ok?
    ensures PathKept(Parse(text).value.path, hasAuthority) <==> !StrayPath(SplitUri(text).path, hasAuthority)
  {
    hide Parse, SplitUri, StrayPath, PathKept;
    ParseIsSplitThenDecode(text);
    DecodedPathStray(SplitUri(text), hasAuthority, Parse(text).value);
  }

  lemma DecodedPathStray(p: Parts, hasAuthority: bool, u: Uri)
    requires DecodeParts(p) == Ok(u)
    ensures PathKept(u.path, hasAuthority) <==> !StrayPath(p.path, hasAuthority)
  {
    hide ParsePath, DecodeScheme, DecodeAuthority, DecodeOption;
    if p.authority.Some? && p.path == [] {
      NoPathNotStray(hasAuthority);
    } else {
      ParsedPathKept(p.path, u.path, hasAuthority);
    }
  }

  lemma NoPathNotStray(hasAuthority: bool)
    ensures !StrayPath([], hasAuthority)
  {
    SplitPeel("", "", '/');
  }

  lemma ParsedPathKept(path: string, q: Path, hasAuthority: bool)
    requires ParsePath(path) == Ok(q)
    ensures PathKept(q, hasAuthority) <==> !StrayPath(path, hasAuthority)
  {
    hide Unfinished, Split, DecodeSegments;
    ParsedDoubleSlash(path, q);
    assert q == [[], []] <==> |q| == 2 && StartsDoubleSlash(q);
    if path == "" {
      NoPathNotStray(hasAuthority);
    }
  }

  lemma {:induction false} BuiltPath(b: Build, hasAuthority: bool)
    ensures Eval(b).Ok? ==> (PathKept(Eval(b).value.path, hasAuthority) <==> PathReadsBack(b, hasAuthority))
  {
    hide Parse, Normalize, PathKept, StrayPath;
    if Eval(b).Ok? {
      match b
      case Parsed(text) => ParsedKept(text, hasAuthority);
      case Normalized(of) => NormalKept(Eval(of).value.path, hasAuthority);
      case Resolved(base, ref) =>
        var u, v := Eval(base).value, Eval(ref).value;
        NormalKept(v.path, hasAuthority);
        NormalKept(MergedPath(u.path, v.path), hasAuthority);
        BuiltPath(base, hasAuthority);
        BuiltPath(ref, hasAuthority);
    }
  }

  /**
   Exactly which of the URIs built by parsing, normalising and resolving survive printing and parsing:
   those whose path does, and that do not read as having a scheme where they have none.
   */
  lemma BuiltRoundTrips(b: Build, u: Uri)
    ensures Eval(b) == Ok(u) ==>
              (Parse(Print(u)) == Ok(Canon(u)) <==>
               && PathReadsBack(b, u.authority.Some?)
               && (u.scheme.None? ==> !ReadsAsScheme(u.authority.Some?, u.path, TailBytes(u))))
  {
    hide Eval, Parse, Print, Canon, ReadsAsScheme, PathReadsBack, ValidScheme, Lower;
    if Eval(b) == Ok(u) {
      RoundTrip(u);
      BuiltWellFormed(b);
      BuiltPath(b, u.authority.Some?);
    }
  }

  /** Whatever was parsed, a URI that has a scheme and has just been normalised round trips. */
  lemma NormalizedRoundTrips(b: Build, u: Uri)
    ensures Eval(Normalized(b)) == Ok(u) && u.scheme.Some? ==> Parse(Print(u)) == Ok(Canon(u))
  {
    hide Eval, Parse, Print, Canon, ReadsAsScheme;
    BuiltRoundTrips(Normalized(b), u);
  }

  /** No text the build starts from has a stray escape, except under a normalisation, where it does no harm. */
  predicate NoStrays(b: Build) {
    match b
    case Parsed(text) => !StrayEscape(SplitUri(text))
    case Normalized(_) => true
    case Resolved(base, ref) => NoStrays(base) && NoStrays(ref)
  }

  /** A path only ever moves to a URI with an authority, never away from one. */
  lemma {:induction false} NoStraysReadBack(b: Build, hasAuthority: bool)
    requires Eval(b).Ok? && NoStrays(b) && (Eval(b).value.authority.Some? ==> hasAuthority)
    ensures PathReadsBack(b, hasAuthority)
  {
    hide Parse, Normalize, Split, Unfinished;
    match b
    case Parsed(text) =>
      hide SplitUri;
      ParseIsSplitThenDecode(text);
      DecodedAuthority(SplitUri(text), Eval(b).value);
    case Normalized(_) =>
    case Resolved(base, ref) =>
      if Eval(ref).value.path == [] && Eval(ref).value.authority.None? && Eval(ref).value.scheme.None? {
        NoStraysReadBack(base, hasAuthority);
      } else if Eval(ref).value.authority.None? {
        NoStraysReadBack(ref, hasAuthority);
      }
  }

  lemma DecodedAuthority(p: Parts, u: Uri)
    requires DecodeParts(p) == Ok(u)
    ensures p.authority.Some? <==> u.authority.Some?
  {
    hide DecodeScheme, ParseAuthority, DecodePath, DecodeOption;
  }

  /**
   Every URI with a scheme, built by parsing, normalising and resolving in any finite combination from
   texts without stray escapes, prints to text that parses back to its canonical form.
   */
  lemma NoStraysRoundTrip(b: Build, u: Uri)
    ensures Eval(b) == Ok(u) && NoStrays(b) && u.scheme.Some? ==> Parse(Print(u)) == Ok(Canon(u))
  {
    hide Eval, Parse, Print, Canon, ReadsAsScheme, NoStrays, PathReadsBack;
    if Eval(b) == Ok(u) && NoStrays(b) {
      BuiltRoundTrips(b, u);
      NoStraysReadBack(b, u.authority.Some?);
    }
  }
}
