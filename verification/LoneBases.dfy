/**
 A base path of a single relative segment, which `resolve` keeps and merge of section 5.2.3 drops.
 */
module LoneBases {
  import opened Errors
  import opened Sequences
  import opened PercentDecoder
  import opened Paths
  import opened DotSegments

  // ---- Two paths that differ --------------------------------------------------------------------

  function CommonPrefix(a: Path, b: Path): (i: nat)
    ensures i <= |a| && i <= |b| && a[..i] == b[..i]
    ensures i < |a| && i < |b| ==> a[i] != b[i]
  {
    if a == [] || b == [] || a[0] != b[0] then 0 else
      var i := 1 + CommonPrefix(a[1..], b[1..]);
      assert a[..i] == [a[0]] + a[1..][..i - 1] && b[..i] == [b[0]] + b[1..][..i - 1];
      i
  }

  /**
   What section 5.2.4 holds beside what `normalize_path` holds once the two have parted: all but the
   first segment, or as many segments, of which the one at `fork` is the first that differs.
   */
  ghost predicate Forked(rfc: Path, kept: Path, fork: Option<nat>) {
    && rfc != [] && rfc[0] != [] && kept != [] && kept[0] != []
    && match fork
       case None => rfc == kept[1..]
       case Some(i) => |rfc| == |kept| && i < |kept| && rfc[..i] == kept[..i] && rfc[i] != kept[i]
  }

  lemma {:induction false} ShiftedDiffers(kept: Path)
    requires kept != [] && kept[0] != []
    ensures kept[1..] + [[]] != kept
  {
    var shifted := kept[1..] + [[]];
    if |kept| == 1 {
      assert shifted[0] == [];
    } else {
      assert shifted[0] == kept[1];
      assert shifted[1..] == kept[1..][1..] + [[]];
      if kept[1] != [] {
        ShiftedDiffers(kept[1..]);
      }
    }
  }

  lemma ForkedDiffer(rfc: Path, kept: Path, fork: Option<nat>)
    requires Forked(rfc, kept, fork)
    ensures rfc != kept && rfc + [[]] != Closed(kept)
  {
    ShiftedDiffers(kept);
    if fork.Some? {
      var i := fork.value;
      assert (rfc + [[]])[i] != (kept + [[]])[i];
    }
  }

  // ---- Catching up ------------------------------------------------------------------------------

  /**
   The only way for the two to end with the same text: section 5.2.4 keeps an empty segment that
   `normalize_path` drops, which makes up the number, and a `..` removes the one segment that differs.
   */
  predicate CatchesUp(kept: Path, dir: bool, fork: Option<nat>, segments: Path)
    requires kept != []
    decreases |segments|
  {
    && segments != []
    && var s, rest := segments[0], segments[1..];
       if s == DOT_DOT && fork == Some(|kept| - 1) then Agrees(false, kept, dir, 0, segments)
       else if s == DOT_DOT && |kept| <= (if fork.None? then 2 else 1) then false
       else if dir && s == [] then
         fork.None? && CatchesUp(kept, true, Some(CommonPrefix(kept[1..] + [[]], kept)), rest)
       else CatchesUp(Kept(kept, dir, s), IsDot(s) || s == [], fork, rest)
  }

  function NextFork(kept: Path, dir: bool, fork: Option<nat>, s: bytes): Option<nat>
    requires kept != []
  {
    if dir && s == [] then Some(CommonPrefix(kept[1..] + [[]], kept)) else fork
  }

  lemma ForkedStep(rfc: Path, kept: Path, dir: bool, fork: Option<nat>, s: bytes)
    requires Forked(rfc, kept, fork)
    requires s == DOT_DOT ==> fork != Some(|kept| - 1) && (fork.None? ==> |kept| > 2)
    requires dir && s == [] ==> fork.None?
    ensures Forked(RfcKept(rfc, s), Kept(kept, dir, s), NextFork(kept, dir, fork, s))
  {
    ShiftedDiffers(kept);
  }

  lemma ForkedRelative(rfc: Path, kept: Path, fork: Option<nat>)
    requires Forked(rfc, kept, fork)
    ensures Relative(rfc) && Relative(kept) && rfc != [] && kept != []
  {
  }

  /** The last segment closes a directory: the two texts differ. */
  lemma ForkedClosed(rfc: Path, kept: Path, dir: bool, fork: Option<nat>, s: bytes)
    requires Forked(rfc, kept, fork) && Closes(dir, s)
    requires s == DOT_DOT ==> fork != Some(|kept| - 1) && (fork.None? ==> |kept| > 2)
    ensures RemoveDotSegments(SlashText([s]), JoinText(rfc)) != PathText(Finish(Steps(Progress(kept, dir), [s])))
  {
    hide JoinText, SlashText, PathText, RemoveDotSegments, Step, Finish;
    ForkedRelative(rfc, kept, fork);
    assert [s][1..] == [];
    RemoveStepRelative(rfc, [s]);
    StepRelative(kept, dir, s);
    var rfc', kept' := if IsDot(s) then RfcKept(rfc, s) else rfc, Kept(kept, dir, s);
    ForkedStep(rfc, kept, false, fork, s);
    assert Forked(rfc', kept', fork);
    ForkedRelative(rfc', kept', fork);
    ForkedDiffer(rfc', kept', fork);
    FinishRelative(kept');
    if IsDot(s) {
      JoinPushEmpty(rfc');
    } else {
      SlashTextOfNothing();
      RemoveNothing(JoinText(rfc + [s]));
    }
    JoinTextInjective(rfc' + [[]], Closed(kept'));
  }

  lemma {:induction false} CompareForked(rfc: Path, kept: Path, dir: bool, fork: Option<nat>, segments: Path)
    requires Forked(rfc, kept, fork)
    requires segments == [] ==> (dir <==> EndsEmpty(kept))
    ensures RemoveDotSegments(SlashText(segments), JoinText(rfc)) ==
            PathText(Finish(Steps(Progress(kept, dir), segments))) <==>
            CatchesUp(kept, dir, fork, segments)
    decreases |segments|
  {
    hide JoinText, SlashText, PathText, RemoveDotSegments, Step, CommonPrefix, Agrees;
    ForkedRelative(rfc, kept, fork);
    if segments == [] {
      SlashTextOfNothing();
      RemoveNothing(JoinText(rfc));
      ForkedDiffer(rfc, kept, fork);
      JoinTextInjective(rfc, kept);
      RelativeText(kept);
    } else {
      var s, rest := segments[0], segments[1..];
      hide Finish;
      RemoveStepRelative(rfc, segments);
      if s == DOT_DOT && fork == Some(|kept| - 1) {
        CaughtUp(rfc, kept, dir, segments);
      } else if s == DOT_DOT && fork.None? && |kept| == 2 {
        assert rfc == [rfc[0]];
        LosesRoot(rfc[0], kept, dir, segments);
      } else if rest == [] && Closes(dir, s) {
        assert segments == [s];
        ForkedClosed(rfc, kept, dir, fork, s);
      } else {
        StepRelative(kept, dir, s);
        if dir && s == [] && fork.Some? {
          StaysBehind(rfc + [s], kept, true, rest);
        } else {
          ForkedStep(rfc, kept, dir, fork, s);
          CompareForked(RfcKept(rfc, s), Kept(kept, dir, s), IsDot(s) || s == [], NextFork(kept, dir, fork, s), rest);
        }
      }
    }
  }

  /** A `..` that removes the only segment that differs. */
  lemma CaughtUp(rfc: Path, kept: Path, dir: bool, segments: Path)
    requires kept != [] && Forked(rfc, kept, Some(|kept| - 1)) && segments != [] && segments[0] == DOT_DOT
    ensures RemoveDotSegments(SlashText(segments), JoinText(rfc)) ==
            PathText(Finish(Steps(Progress(kept, dir), segments))) <==>
            Agrees(false, kept, dir, 0, segments)
  {
    hide JoinText, SlashText, PathText, RemoveDotSegments, Step, Finish, Agrees;
    ForkedRelative(rfc, kept, Some(|kept| - 1));
    RemoveStepRelative(rfc, segments);
    RemoveStepRelative(kept, segments);
    CompareRelative(kept, kept, dir, 0, segments);
  }

  // ---- References -------------------------------------------------------------------------------

  /** A `..` among the leading dot segments. */
  predicate ClimbsOut(path: Path) {
    path != [] && IsDot(path[0]) && (path[0] == DOT_DOT || ClimbsOut(path[1..]))
  }

  /**
   When resolving `ref` against the lone segment `x` gives the text of remove_dot_segments of `ref`:
   if `x` is a dot segment or the reference leaves `x` at once, as for a base without a path; otherwise
   only by catching up.
   */
  predicate LoneAgrees(x: bytes, ref: Path) {
    if IsDot(x) || ClimbsOut(ref) then AgreesWithRfc(ref)
    else
      var q := DropLeadingDots(ref);
      q != [] && q[0] != [] && CatchesUp([x, q[0]], false, None, q[1..])
  }

  /** Leading dot segments, read after `x`. */
  lemma {:induction false} LeadingDotsAfter(x: bytes, ref: Path, dir: bool)
    requires x != [] && !IsDot(x)
    ensures var q := DropLeadingDots(ref);
            Steps(Progress([x], dir), ref) ==
            Steps(if ClimbsOut(ref) then Progress([], true) else Progress([x], dir || q != ref), q)
  {
    if ref != [] && IsDot(ref[0]) {
      DropShortens(ref[1..]);
      var rest := ref[1..];
      assert Progress([x], dir).path[..0] == [];
      if ref[0] == DOT_DOT {
        DotsAtRoot(rest);
      } else {
        LeadingDotsAfter(x, rest, true);
      }
    }
  }

  lemma {:induction false} DotsAtRoot(path: Path)
    ensures Steps(Progress([], true), path) == Steps(Progress([], true), DropLeadingDots(path))
  {
    if path != [] && IsDot(path[0]) {
      DotsAtRoot(path[1..]);
    }
  }

  lemma AfterLone(x: bytes, ref: Path)
    requires x != []
    ensures Normalize([x] + ref) ==
            Finish(if IsDot(x) then Steps(Progress([], true), ref) else Steps(Progress([x], false), ref))
  {
    HeadTail(x, ref);
    Empty([x]);
  }

  lemma DotFirst(x: bytes, ref: Path)
    requires IsDot(x) && ref != [] && ref[0] != []
    ensures PathText(Normalize([x] + ref)) == RemoveDotSegments(PathText(ref), []) <==> AgreesWithRfc(ref)
  {
    hide PathText, JoinText, RemoveDotSegments, Normalize, Agrees;
    NormalizeIsRemoveDotSegments([x] + ref);
    RemoveLeadingDot([x] + ref);
    HeadTail(x, ref);
    RelativeText(ref);
    RelativeText([x] + ref);
  }

  /** The RFC starts with the first segment of `q` that is no dot segment, `normalize_path` with `x` before it. */
  lemma NormalizeAfter(x: bytes, ref: Path)
    requires x != [] && !IsDot(x) && Relative(ref) && ref != []
    ensures var q := DropLeadingDots(ref);
            PathText(Finish(Steps(Progress([x], q != ref), q))) == RemoveDotSegments(PathText(ref), []) <==>
            q != [] && q[0] != [] && CatchesUp([x, q[0]], false, None, q[1..])
  {
    hide JoinText, PathText, SlashText, RemoveDotSegments, Finish, CatchesUp, SegmentText;
    var q := DropLeadingDots(ref);
    RelativeText(ref);
    LeadingDots(ref, false);
    StaysRelative([x], q != ref, q);
    if q == [] || q == [[]] {
      StillThere(x, q);
    } else if q[0] == [] {
      RootedRest(q);
      RelativeText(Finish(Steps(Progress([x], q != ref), q)));
    } else {
      DropStops(ref);
      FirstKept(q);
      Empty([q[0]]);
      assert [x] + [q[0]] == [x, q[0]];
      assert [x, q[0]][1..] == [q[0]];
      CompareForked([q[0]], [x, q[0]], false, None, q[1..]);
    }
  }

  lemma StillThere(x: bytes, q: Path)
    requires x != [] && !IsDot(x) && (q == [] || q == [[]])
    ensures PathText(Finish(Steps(Progress([x], true), q))) != RemoveDotSegments(JoinText(q), [])
  {
    hide PathText, JoinText;
    JoinTextSpecial(q);
    assert ROOT[1..] == [];
    PathTextFacts(Finish(Steps(Progress([x], true), q)));
  }

  /** The two results for a base path of one relative segment. */
  lemma NormalizeLone(x: bytes, ref: Path)
    requires x != [] && ref != [] && ref[0] != []
    ensures PathText(Normalize([x] + ref)) == RemoveDotSegments(PathText(ref), []) <==> LoneAgrees(x, ref)
  {
    hide JoinText, PathText, RemoveDotSegments, Finish, Steps, AgreesWithRfc, CatchesUp;
    AfterLone(x, ref);
    LeadingDots(ref, false);
    if IsDot(x) {
      DotFirst(x, ref);
    } else {
      LeadingDotsAfter(x, ref, false);
      if ClimbsOut(ref) {
        DropShortens(ref[1..]);
        NormalizeIsRemoveDotSegments(ref);
      } else {
        NormalizeAfter(x, ref);
      }
    }
  }

  // ---- Consequences -----------------------------------------------------------------------------

  lemma {:induction false} NeverCatchesUp(kept: Path, dir: bool, segments: Path)
    requires kept != []
    requires forall i | 0 <= i < |segments| - 1 :: segments[i] != []
    ensures !CatchesUp(kept, dir, None, segments)
    decreases |segments|
  {
    hide CommonPrefix;
    if segments != [] {
      var s, rest := segments[0], segments[1..];
      if s != [] && !(s == DOT_DOT && |kept| <= 2) {
        NeverCatchesUp(Kept(kept, dir, s), IsDot(s), rest);
      } else if s == [] {
        assert rest == [];
      }
    }
  }

  lemma {:induction false} DropIsSuffix(path: Path)
    ensures var q := DropLeadingDots(path); |q| <= |path| && q == path[|path| - |q|..]
  {
    if path != [] && IsDot(path[0]) {
      DropIsSuffix(path[1..]);
    }
  }

  /** Without interior empty segments only a reference that leaves the lone segment agrees. */
  lemma LoneTidy(x: bytes, ref: Path)
    requires !IsDot(x) && Tidy(ref)
    ensures LoneAgrees(x, ref) <==> ClimbsOut(ref) && AgreesWithRfc(ref)
  {
    hide AgreesWithRfc;
    var q := DropLeadingDots(ref);
    DropIsSuffix(ref);
    if q != [] {
      NeverCatchesUp([x, q[0]], false, q[1..]);
    }
  }
}
