/**
 remove_dot_segments of section 5.2.4 of RFC 3986, and exactly when `normalize_path` computes it.
 */
module DotSegments {
  import opened Sequences
  import opened PercentDecoder
  import opened Paths

  /** Removes the last segment and its preceding slash, if any. */
  function RemoveLast(out: string): string {
    if out == [] then []
    else if out[|out| - 1] == '/' then out[..|out| - 1]
    else RemoveLast(out[..|out| - 1])
  }

  /** The loop of section 5.2.4: input buffer and output buffer. */
  function RemoveDotSegments(input: string, out: string): string
    decreases |input|
  {
    if input == [] then out
    // 2A
    else if "../" <= input then RemoveDotSegments(input[3..], out)
    else if "./" <= input then RemoveDotSegments(input[2..], out)
    // 2B
    else if "/./" <= input then RemoveDotSegments(input[2..], out)
    else if input == "/." then RemoveDotSegments("/", out)
    // 2C
    else if "/../" <= input then RemoveDotSegments(input[3..], RemoveLast(out))
    else if input == "/.." then RemoveDotSegments("/", RemoveLast(out))
    // 2D
    else if input == "." || input == ".." then out
    // 2E
    else
      var k := 1 + Find(input[1..], {'/'});
      RemoveDotSegments(input[k..], out + input[..k])
  }

  // ---- One segment at a time --------------------------------------------------------------------

  /** Segments, each with a slash before it. */
  function SlashText(segments: Path): string {
    if segments == [] then [] else "/" + SegmentText(segments[0]) + SlashText(segments[1..])
  }

  lemma {:induction false} SlashTextConcat(a: Path, b: Path)
    ensures SlashText(a + b) == SlashText(a) + SlashText(b)
  {
    hide SegmentText;
    if a == [] {
      Empty(b);
      Empty(SlashText(b));
    } else {
      SlashTextConcat(a[1..], b);
      assert (a + b)[1..] == a[1..] + b;
      Assoc("/" + SegmentText(a[0]), SlashText(a[1..]), SlashText(b));
    }
  }

  lemma SlashTextPush(a: Path, s: bytes)
    ensures SlashText(a + [s]) == SlashText(a) + ("/" + SegmentText(s))
  {
    SlashTextConcat(a, [s]);
    Empty("/" + SegmentText(s));
  }

  lemma {:induction false} JoinSlash(path: Path)
    requires path != []
    ensures JoinText(path) == SegmentText(path[0]) + SlashText(path[1..])
  {
    hide SegmentText;
    if |path| == 1 {
      Empty(SegmentText(path[0]));
    } else {
      JoinSlash(path[1..]);
      Assoc("/", SegmentText(path[1]), SlashText(path[2..]));
      assert path[1..][1..] == path[2..];
      Assoc(SegmentText(path[0]), "/", SegmentText(path[1]) + SlashText(path[2..]));
    }
  }

  lemma {:induction false} RemoveLastSegment(out: string, e: string)
    requires Avoids(e, {'/'})
    ensures RemoveLast(out + "/" + e) == out
    ensures RemoveLast(e) == []
  {
    var t := out + "/" + e;
    if e == [] {
      assert t[..|t| - 1] == out;
    } else {
      var e' := e[..|e| - 1];
      assert t[..|t| - 1] == out + "/" + e';
      assert t[|t| - 1] == e[|e| - 1];
      RemoveLastSegment(out, e');
    }
  }

  /** The cases 2A to 2D, on a slash, a slash-free segment `e`, and nothing or another slash. */
  lemma PrefixCases(e: string, rest: string)
    requires Avoids(e, {'/'}) && (rest == [] || rest[0] == '/')
    ensures var input := "/" + e + rest;
            && !("../" <= input) && !("./" <= input) && input != "." && input != ".."
            && ("/./" <= input <==> e == "." && rest != [])
            && (input == "/." <==> e == "." && rest == [])
            && ("/../" <= input <==> e == ".." && rest != [])
            && (input == "/.." <==> e == ".." && rest == [])
            && Find(input[1..], {'/'}) == |e| && input[..|e| + 1] == "/" + e && input[|e| + 1..] == rest
  {
    var input := "/" + e + rest;
    Assoc("/", e, rest);
    HeadTail('/', e + rest);
    FindConcat(e, rest, {'/'});
    DropPrefix("/" + e, rest);
    assert input[0] == '/';
    PrefixDot(e, rest);
    PrefixDotDot(e, rest);
  }

  lemma PrefixDot(e: string, rest: string)
    requires Avoids(e, {'/'}) && (rest == [] || rest[0] == '/')
    ensures var input := "/" + e + rest;
            ("/./" <= input <==> e == "." && rest != []) && (input == "/." <==> e == "." && rest == [])
  {
    var input := "/" + e + rest;
    assert forall i | 0 <= i < |e| :: input[i + 1] == e[i];
    assert rest != [] ==> input[|e| + 1] == rest[0];
    assert "/./" <= input <==> |input| >= 3 && input[0] == '/' && input[1] == '.' && input[2] == '/';
    assert input == "/." <==> |input| == 2 && input[0] == '/' && input[1] == '.';
    assert e == "." <==> |e| == 1 && e[0] == '.';
  }

  lemma PrefixDotDot(e: string, rest: string)
    requires Avoids(e, {'/'}) && (rest == [] || rest[0] == '/')
    ensures var input := "/" + e + rest;
            ("/../" <= input <==> e == ".." && rest != []) && (input == "/.." <==> e == ".." && rest == [])
  {
    var input := "/" + e + rest;
    assert forall i | 0 <= i < |e| :: input[i + 1] == e[i];
    assert rest != [] ==> input[|e| + 1] == rest[0];
    assert "/../" <= input <==>
           |input| >= 4 && input[0] == '/' && input[1] == '.' && input[2] == '.' && input[3] == '/';
    assert input == "/.." <==> |input| == 3 && input[0] == '/' && input[1] == '.' && input[2] == '.';
    assert e == ".." <==> |e| == 2 && e[0] == '.' && e[1] == '.';
  }

  lemma RemoveFromSlash(out: string)
    ensures RemoveDotSegments("/", out) == out + "/"
  {
    PrefixCases([], []);
    assert "/" + [] + [] == "/";
    assert "/"[1..] == [];
    assert "/"[..1] == "/";
  }

  /** What section 5.2.4 does with one segment. */
  lemma RemoveStep(e: string, rest: string, out: string)
    requires Avoids(e, {'/'}) && (rest == [] || rest[0] == '/')
    ensures RemoveDotSegments("/" + e + rest, out) ==
            if e == "." then (if rest == [] then out + "/" else RemoveDotSegments(rest, out))
            else if e == ".." then
              (if rest == [] then RemoveLast(out) + "/" else RemoveDotSegments(rest, RemoveLast(out)))
            else RemoveDotSegments(rest, out + ("/" + e))
  {
    hide RemoveLast;
    PrefixCases(e, rest);
    RemoveFromSlash(out);
    RemoveFromSlash(RemoveLast(out));
  }

  const ROOT: Path := [[]]

  function Pop(path: Path): Path {
    if path == [] then [] else path[..|path| - 1]
  }

  /** What section 5.2.4 keeps after one more segment. */
  function RfcKept(kept: Path, s: bytes): Path {
    if s == DOT then kept else if s == DOT_DOT then Pop(kept) else kept + [s]
  }

  /** Section 5.2.4 on segments: every segment is kept until a `..` removes it; a final dot segment leaves a slash. */
  function RfcSegments(kept: Path, segments: Path): Path
    decreases |segments|
  {
    if segments == [] then kept
    else
      var s, rest := segments[0], segments[1..];
      if rest == [] && IsDot(s) then RfcKept(kept, s) + [[]] else RfcSegments(RfcKept(kept, s), rest)
  }

  lemma SlashTextStart(segments: Path)
    ensures segments != [] ==> SlashText(segments) != [] && SlashText(segments)[0] == '/'
  {
  }

  lemma RemoveLastSlash(kept: Path)
    ensures RemoveLast(SlashText(kept)) == SlashText(Pop(kept))
  {
    hide SegmentText;
    if kept != [] {
      var s := kept[|kept| - 1];
      assert kept == Pop(kept) + [s];
      SlashTextPush(Pop(kept), s);
      SegmentTextFacts(s);
      Assoc(SlashText(Pop(kept)), "/", SegmentText(s));
      RemoveLastSegment(SlashText(Pop(kept)), SegmentText(s));
    }
  }

  lemma SlashTextPushEmpty(kept: Path)
    ensures SlashText(kept + [[]]) == SlashText(kept) + "/"
  {
    SlashTextPush(kept, []);
    SegmentTextFacts([]);
    Empty("/");
  }

  /** On rooted text, section 5.2.4 works segment by segment. */
  lemma {:induction false} RemoveRooted(kept: Path, segments: Path)
    ensures RemoveDotSegments(SlashText(segments), SlashText(kept)) == SlashText(RfcSegments(kept, segments))
    decreases |segments|
  {
    hide SegmentText, RemoveLast, RemoveDotSegments;
    if segments == [] {
      RemoveNothing(SlashText(kept));
    } else {
      var s, rest := segments[0], segments[1..];
      SegmentTextFacts(s);
      SlashTextStart(rest);
      RemoveStep(SegmentText(s), SlashText(rest), SlashText(kept));
      RemoveLastSlash(kept);
      SlashTextPushEmpty(kept);
      SlashTextPushEmpty(Pop(kept));
      SlashTextPush(kept, s);
      RemoveRooted(RfcKept(kept, s), rest);
    }
  }

  lemma RemoveNothing(out: string)
    ensures RemoveDotSegments([], out) == out
  {
  }

  // ---- When normalize_path agrees ---------------------------------------------------------------

  /**
   `normalize_path` differs from section 5.2.4 in three ways only. It drops an empty segment read at
   directory level; `drift` counts those that section 5.2.4 keeps and no later `..` has removed. A
   final dot segment leaves no further slash after an empty segment. And in a relative path a `..` may
   remove the first segment, after which the RFC's result is rooted.
   `kept` and `dir` are what `normalize_path` itself holds (without the root segment if `rooted`).
   */
  predicate Agrees(rooted: bool, kept: Path, dir: bool, drift: nat, segments: Path)
    decreases |segments|
  {
    if segments == [] then drift == 0
    else
      var s, rest := segments[0], segments[1..];
      if s == DOT_DOT && !rooted && |kept| <= 1 then false
      else
        var kept' := Kept(kept, dir, s);
        if rest == [] && Closes(dir, s) then Drift(kept, false, drift, s) == 0 && !EndsEmpty(kept')
        else Agrees(rooted, kept', IsDot(s) || s == [], Drift(kept, dir, drift, s), rest)
  }

  /** Read last, `s` leaves a directory without itself being kept. */
  predicate Closes(dir: bool, s: bytes) {
    IsDot(s) || (dir && s == [])
  }

  function Drift(kept: Path, dir: bool, drift: nat, s: bytes): nat {
    if s == DOT_DOT && kept == [] && drift > 0 then drift - 1
    else if dir && s == [] then drift + 1
    else drift
  }

  /** The segments `normalize_path` keeps after one more segment. */
  function Kept(kept: Path, dir: bool, s: bytes): Path {
    if s == DOT_DOT then Pop(kept)
    else if s == DOT || (dir && s == []) then kept
    else kept + [s]
  }

  lemma StepRooted(kept: Path, dir: bool, s: bytes)
    ensures Step(Progress([[]] + kept, dir), s) == Progress([[]] + Kept(kept, dir, s), IsDot(s) || s == [])
  {
    var path := [[]] + kept;
    assert kept != [] ==> path[..|path| - 1] == [[]] + Pop(kept);
    Assoc([[]], kept, [s]);
  }

  lemma StepRelative(kept: Path, dir: bool, s: bytes)
    requires kept != [] ==> kept[0] != []
    ensures Step(Progress(kept, dir), s) == Progress(Kept(kept, dir, s), IsDot(s) || s == [])
  {
  }

  /** The text of a rooted path. */
  lemma RootedText(kept: Path)
    ensures PathText([[]] + kept) == SlashText(if kept == [] then [[]] else kept)
  {
    hide SegmentText;
    var path := [[]] + kept;
    assert path[1..] == kept;
    SegmentTextFacts([]);
    if kept == [] {
      assert path == [[]];
      SlashTextPushEmpty([]);
    } else {
      JoinSlash(path);
      Empty(SlashText(kept));
    }
  }

  lemma SlashTextInjective(a: Path, b: Path)
    ensures SlashText(a) == SlashText(b) <==> a == b
  {
    hide SegmentText, JoinText, DecodeSegments, Split;
    SlashTextStart(a);
    SlashTextStart(b);
    SlashTextJoin(a);
    SlashTextJoin(b);
    if a != [] && b != [] {
      DecodeJoined(a);
      DecodeJoined(b);
      HeadTail('/', JoinText(a));
      HeadTail('/', JoinText(b));
    }
  }

  lemma SlashTextJoin(a: Path)
    ensures a != [] ==> SlashText(a) == "/" + JoinText(a)
  {
    hide SegmentText;
    if a != [] {
      JoinSlash(a);
      Assoc("/", SegmentText(a[0]), SlashText(a[1..]));
    }
  }

  /** The segments whose slash text is printed once the last segment has been read. */
  function Closed(kept: Path): Path {
    if EndsEmpty(kept) then kept else kept + [[]]
  }

  lemma FinishRooted(kept: Path)
    ensures PathText(Finish(Progress([[]] + kept, true))) == SlashText(Closed(kept))
  {
    hide PathText, SlashText;
    var path := [[]] + kept;
    assert kept != [] ==> path[|path| - 1] == kept[|kept| - 1];
    Assoc([[]], kept, [[]]);
    RootedText(kept);
    RootedText(kept + [[]]);
    assert kept == [] ==> kept + [[]] == [[]] && path == [[]];
  }

  /** The RFC's segments are `drift` more than the kept ones, and the same if `drift` is zero. */
  ghost predicate Ahead(rfc: Path, kept: Path, drift: nat) {
    |rfc| == |kept| + drift && (drift == 0 ==> rfc == kept)
  }

  lemma AheadStep(rfc: Path, kept: Path, dir: bool, drift: nat, s: bytes)
    requires Ahead(rfc, kept, drift)
    ensures Ahead(RfcKept(rfc, s), Kept(kept, dir, s), Drift(kept, dir, drift, s))
  {
  }

  lemma ClosedAhead(rfc: Path, kept: Path, dir: bool, drift: nat, s: bytes)
    requires Ahead(rfc, kept, drift) && Closes(dir, s)
    ensures var kept' := Kept(kept, dir, s);
            RfcSegments(rfc, [s]) == Closed(kept') <==> Drift(kept, false, drift, s) == 0 && !EndsEmpty(kept')
  {
    var kept' := Kept(kept, dir, s);
    var rfc' := if IsDot(s) then RfcKept(rfc, s) else rfc;
    assert [s][1..] == [];
    assert RfcSegments(rfc, [s]) == rfc' + [[]];
    assert Ahead(rfc', kept', Drift(kept, false, drift, s));
    assert rfc' == kept' ==> rfc' + [[]] == kept' + [[]];
  }

  lemma CompareRootedEnd(rfc: Path, kept: Path, dir: bool, drift: nat)
    requires Ahead(rfc, kept, drift) && kept != [] && (dir <==> EndsEmpty(kept))
    ensures SlashText(rfc) == PathText(Finish(Progress([[]] + kept, dir))) <==> drift == 0
  {
    hide SlashText, PathText;
    RootedText(kept);
    SlashTextInjective(rfc, kept);
    assert ([[]] + kept)[|kept|] == kept[|kept| - 1];
  }

  lemma {:induction false} CompareRooted(rfc: Path, kept: Path, dir: bool, drift: nat, segments: Path)
    requires Ahead(rfc, kept, drift)
    requires segments == [] ==> kept != [] && (dir <==> EndsEmpty(kept))
    ensures SlashText(RfcSegments(rfc, segments)) == PathText(Finish(Steps(Progress([[]] + kept, dir), segments)))
            <==> Agrees(true, kept, dir, drift, segments)
    decreases |segments|
  {
    hide SlashText, PathText, Ahead, Drift, RfcKept, Step, Finish;
    if segments == [] {
      CompareRootedEnd(rfc, kept, dir, drift);
    } else {
      var s, rest := segments[0], segments[1..];
      StepRooted(kept, dir, s);
      var kept' := Kept(kept, dir, s);
      if rest == [] && Closes(dir, s) {
        assert segments == [s];
        FinishRooted(kept');
        ClosedAhead(rfc, kept, dir, drift, s);
        SlashTextInjective(RfcSegments(rfc, segments), Closed(kept'));
      } else {
        AheadStep(rfc, kept, dir, drift, s);
        CompareRooted(RfcKept(rfc, s), kept', IsDot(s) || s == [], Drift(kept, dir, drift, s), rest);
      }
    }
  }

  // ---- Relative paths ---------------------------------------------------------------------------

  lemma JoinPush(kept: Path, s: bytes)
    requires kept != []
    ensures JoinText(kept + [s]) == JoinText(kept) + ("/" + SegmentText(s))
  {
    hide SegmentText, JoinText, SlashText;
    JoinSlash(kept);
    JoinSlash(kept + [s]);
    assert (kept + [s])[1..] == kept[1..] + [s];
    SlashTextPush(kept[1..], s);
    Assoc(SegmentText(kept[0]), SlashText(kept[1..]), "/" + SegmentText(s));
  }

  lemma JoinPushEmpty(kept: Path)
    requires kept != []
    ensures JoinText(kept + [[]]) == JoinText(kept) + "/"
  {
    hide JoinText;
    JoinPush(kept, []);
    SegmentTextFacts([]);
    Empty("/");
  }

  lemma RemoveLastJoin(kept: Path)
    requires kept != []
    ensures RemoveLast(JoinText(kept)) == JoinText(Pop(kept))
  {
    hide SegmentText, RemoveLast;
    var s := kept[|kept| - 1];
    SegmentTextFacts(s);
    assert kept == Pop(kept) + [s];
    if |kept| == 1 {
      RemoveLastSegment([], SegmentText(s));
    } else {
      JoinPush(Pop(kept), s);
      Assoc(JoinText(Pop(kept)), "/", SegmentText(s));
      RemoveLastSegment(JoinText(Pop(kept)), SegmentText(s));
    }
  }

  /** One segment of the loop of section 5.2.4, with an unrooted output. */
  lemma RemoveStepRelative(kept: Path, segments: Path)
    requires kept != [] && segments != []
    ensures var s, rest := segments[0], segments[1..];
            RemoveDotSegments(SlashText(segments), JoinText(kept)) ==
            if rest == [] && IsDot(s) then JoinText(RfcKept(kept, s)) + "/"
            else RemoveDotSegments(SlashText(rest), JoinText(RfcKept(kept, s)))
  {
    hide SegmentText, RemoveLast, RemoveDotSegments, JoinText;
    var s, rest := segments[0], segments[1..];
    SegmentTextFacts(s);
    SlashTextStart(rest);
    RemoveStep(SegmentText(s), SlashText(rest), JoinText(kept));
    RemoveLastJoin(kept);
    JoinPush(kept, s);
  }

  predicate StartsWithSlash(s: string) {
    s != [] && s[0] == '/'
  }

  /** From an empty output buffer on, everything the RFC writes starts with a slash. */
  lemma RemoveFromEmpty(segments: Path)
    requires segments != []
    ensures StartsWithSlash(RemoveDotSegments(SlashText(segments), []))
  {
    hide SlashText;
    RemoveRooted([], segments);
    assert SlashText([]) == [] by { SlashTextOfNothing(); }
    RfcSegmentsNotEmpty([], segments);
    SlashTextStart(RfcSegments([], segments));
  }

  lemma SlashTextOfNothing()
    ensures SlashText([]) == []
  {
  }

  lemma {:induction false} RfcSegmentsNotEmpty(kept: Path, segments: Path)
    requires segments != [] || kept != []
    ensures RfcSegments(kept, segments) != []
    decreases |segments|
  {
    if segments != [] {
      var s, rest := segments[0], segments[1..];
      if !(rest == [] && IsDot(s)) {
        RfcSegmentsNotEmpty(RfcKept(kept, s), rest);
      }
    }
  }

  lemma JoinTextInjective(a: Path, b: Path)
    requires a != [] && (b != [] || a[0] != [])
    ensures JoinText(a) == JoinText(b) <==> a == b
  {
    hide JoinText, DecodeSegments, Split;
    DecodeJoined(a);
    if b != [] {
      DecodeJoined(b);
    } else {
      JoinTextSpecial(a);
      JoinTextSpecial(b);
    }
  }

  /** A path `normalize_path` holds while working on a relative path. */
  ghost predicate Relative(path: Path) {
    path != [] ==> path[0] != []
  }

  lemma RelativeText(path: Path)
    requires Relative(path)
    ensures PathText(path) == JoinText(path) && !StartsWithSlash(PathText(path))
  {
    hide JoinText;
    PathTextFacts(path);
  }

  lemma FinishRelative(kept: Path)
    requires Relative(kept)
    ensures PathText(Finish(Progress(kept, true))) == JoinText(if kept == [] then [] else Closed(kept))
  {
    hide JoinText;
    RelativeText(kept);
    RelativeText(kept + if kept == [] then [] else [[]]);
    Empty(kept);
  }

  lemma KeptRelative(kept: Path, dir: bool, s: bytes)
    requires Relative(kept) && (kept == [] ==> dir)
    ensures Relative(Kept(kept, dir, s)) && (Kept(kept, dir, s) == [] ==> IsDot(s) || s == [])
  {
  }

  lemma {:induction false} StaysRelative(kept: Path, dir: bool, segments: Path)
    requires Relative(kept) && (kept == [] ==> dir)
    ensures Relative(Finish(Steps(Progress(kept, dir), segments)))
    decreases |segments|
  {
    if segments != [] {
      var s := segments[0];
      hide Finish, Kept, Step;
      StepRelative(kept, dir, s);
      KeptRelative(kept, dir, s);
      StaysRelative(Kept(kept, dir, s), IsDot(s) || s == [], segments[1..]);
    }
  }

  /** A `..` that removes the first segment of a relative path leaves the RFC with a rooted result. */
  lemma LosesRoot(first: bytes, kept: Path, dir: bool, segments: Path)
    requires segments != [] && segments[0] == DOT_DOT
    requires Relative(kept) && (kept == [] ==> dir)
    ensures RemoveDotSegments(SlashText(segments), JoinText([first])) !=
            PathText(Finish(Steps(Progress(kept, dir), segments)))
  {
    hide PathText, RemoveDotSegments, SlashText, Finish, Steps;
    RemoveStepRelative([first], segments);
    assert RfcKept([first], DOT_DOT) == [];
    StaysRelative(kept, dir, segments);
    RelativeText(Finish(Steps(Progress(kept, dir), segments)));
    if segments[1..] == [] {
      Empty("/");
    } else {
      RemoveFromEmpty(segments[1..]);
    }
  }

  /** Once the RFC holds more segments than `normalize_path`, the two texts of a relative path differ. */
  lemma {:induction false} StaysBehind(rfc: Path, kept: Path, dir: bool, segments: Path)
    requires |rfc| > |kept| && Relative(rfc) && Relative(kept) && (kept == [] ==> dir)
    requires segments == [] ==> |rfc| > |Finish(Progress(kept, dir))|
    ensures RemoveDotSegments(SlashText(segments), JoinText(rfc)) !=
            PathText(Finish(Steps(Progress(kept, dir), segments)))
    decreases |segments|
  {
    hide JoinText, SlashText, PathText, RemoveDotSegments, Step;
    if segments == [] {
      var q := Finish(Progress(kept, dir));
      SlashTextOfNothing();
      RemoveNothing(JoinText(rfc));
      JoinTextInjective(rfc, q);
      RelativeText(q);
    } else {
      var s, rest := segments[0], segments[1..];
      var rfc', kept' := RfcKept(rfc, s), Kept(kept, dir, s);
      RemoveStepRelative(rfc, segments);
      StepRelative(kept, dir, s);
      KeptRelative(kept, dir, s);
      if rfc' == [] {
        assert rfc == [rfc[0]];
        LosesRoot(rfc[0], kept, dir, segments);
      } else if rest == [] && IsDot(s) {
        FinishRelative(kept');
        JoinPushEmpty(rfc');
        JoinTextInjective(rfc' + [[]], if kept' == [] then [] else Closed(kept'));
      } else {
        StaysBehind(rfc', kept', IsDot(s) || s == [], rest);
      }
    }
  }

  lemma {:induction false} CompareRelative(rfc: Path, kept: Path, dir: bool, drift: nat, segments: Path)
    requires Ahead(rfc, kept, drift) && kept != [] && Relative(rfc) && Relative(kept)
    requires segments == [] ==> (dir <==> EndsEmpty(kept))
    ensures RemoveDotSegments(SlashText(segments), JoinText(rfc)) ==
            PathText(Finish(Steps(Progress(kept, dir), segments))) <==>
            Agrees(false, kept, dir, drift, segments)
    decreases |segments|
  {
    hide JoinText, SlashText, PathText, RemoveDotSegments, Step;
    if segments == [] {
      SlashTextOfNothing();
      RemoveNothing(JoinText(rfc));
      JoinTextInjective(rfc, kept);
      RelativeText(kept);
    } else {
      var s, rest := segments[0], segments[1..];
      if s == DOT_DOT && |kept| == 1 {
        CompareRelativeUp(rfc, kept, dir, drift, segments);
      } else {
        hide Finish, Drift, RfcKept, Ahead;
        var kept' := Kept(kept, dir, s);
        RemoveStepRelative(rfc, segments);
        StepRelative(kept, dir, s);
        KeptRelative(kept, dir, s);
        AheadStep(rfc, kept, dir, drift, s);
        RfcRelative(rfc, kept, drift, s);
        if rest == [] && Closes(dir, s) {
          CompareRelativeClosed(rfc, kept, dir, drift, s);
          assert segments == [s];
        } else {
          CompareRelative(RfcKept(rfc, s), kept', IsDot(s) || s == [], Drift(kept, dir, drift, s), rest);
        }
      }
    }
  }

  lemma RfcRelative(rfc: Path, kept: Path, drift: nat, s: bytes)
    requires Ahead(rfc, kept, drift) && kept != [] && Relative(rfc) && (s == DOT_DOT ==> |kept| > 1)
    ensures Relative(RfcKept(rfc, s)) && RfcKept(rfc, s) != []
  {
  }

  lemma CompareRelativeUp(rfc: Path, kept: Path, dir: bool, drift: nat, segments: Path)
    requires Ahead(rfc, kept, drift) && |kept| == 1 && Relative(rfc) && Relative(kept)
    requires segments != [] && segments[0] == DOT_DOT
    ensures RemoveDotSegments(SlashText(segments), JoinText(rfc)) !=
            PathText(Finish(Steps(Progress(kept, dir), segments)))
  {
    if drift == 0 {
      assert rfc == [rfc[0]];
      LosesRoot(rfc[0], kept, dir, segments);
    } else {
      StaysBehind(rfc, kept, dir, segments);
    }
  }

  lemma CompareRelativeClosed(rfc: Path, kept: Path, dir: bool, drift: nat, s: bytes)
    requires Ahead(rfc, kept, drift) && kept != [] && Relative(rfc) && Relative(kept)
    requires Closes(dir, s) && (s == DOT_DOT ==> |kept| > 1)
    ensures RemoveDotSegments(SlashText([s]), JoinText(rfc)) == PathText(Finish(Steps(Progress(kept, dir), [s]))) <==>
            Agrees(false, kept, dir, drift, [s])
  {
    hide JoinText, SlashText, PathText, RemoveDotSegments, Step, Finish, Drift;
    var kept' := Kept(kept, dir, s);
    assert [s][1..] == [];
    RemoveStepRelative(rfc, [s]);
    StepRelative(kept, dir, s);
    ClosedAhead(rfc, kept, dir, drift, s);
    FinishRelative(kept');
    RfcRelative(rfc, kept, drift, s);
    if IsDot(s) {
      JoinPushEmpty(RfcKept(rfc, s));
    } else {
      SlashTextOfNothing();
      RemoveNothing(JoinText(rfc + [s]));
    }
    JoinTextInjective(RfcSegments(rfc, [s]), Closed(kept'));
  }

  // ---- The whole of section 5.2.4 ---------------------------------------------------------------

  function DropLeadingDots(path: Path): Path {
    if path != [] && IsDot(path[0]) then DropLeadingDots(path[1..]) else path
  }

  /** When `normalize_path` computes remove_dot_segments: see `Agrees`. */
  predicate AgreesWithRfc(path: Path) {
    if IsAbsolute(path) then Agrees(true, [], true, 0, path[1..])
    else
      var q := DropLeadingDots(path);
      q == [] || q == [[]] || (q[0] != [] && Agrees(false, [q[0]], false, 0, q[1..]))
  }

  /** 2A and 2D: a dot segment at the front of an unrooted input disappears. */
  lemma RemoveLeadingDot(path: Path)
    requires path != [] && IsDot(path[0])
    ensures RemoveDotSegments(JoinText(path), []) == RemoveDotSegments(JoinText(path[1..]), [])
  {
    hide SegmentText;
    SegmentTextFacts(path[0]);
    var e, rest := SegmentText(path[0]), JoinText(path[1..]);
    if |path| == 1 {
      assert JoinText(path) == e;
    } else if path[0] == DOT {
      var input := e + "/" + rest;
      assert input == "./" + rest;
      assert input[1] == '/' && input[2..] == rest;
    } else {
      var input := e + "/" + rest;
      assert input == "../" + rest;
      assert input[3..] == rest;
    }
  }

  lemma {:induction false} LeadingDots(path: Path, dir: bool)
    ensures var q := DropLeadingDots(path);
            && RemoveDotSegments(JoinText(path), []) == RemoveDotSegments(JoinText(q), [])
            && Steps(Progress([], dir), path) == Steps(Progress([], dir || q != path), q)
  {
    hide RemoveDotSegments, JoinText;
    if path != [] && IsDot(path[0]) {
      RemoveLeadingDot(path);
      LeadingDots(path[1..], true);
      DropShortens(path[1..]);
    }
  }

  lemma {:induction false} DropShortens(path: Path)
    ensures |DropLeadingDots(path)| <= |path|
  {
    if path != [] && IsDot(path[0]) {
      DropShortens(path[1..]);
    }
  }

  lemma NoPrefixMatches(e: string, rest: string)
    requires e != [] && Avoids(e, {'/'}) && e != "." && e != ".." && (rest == [] || rest[0] == '/')
    ensures var input := e + rest;
            && input != [] && input[0] != '/' && !("./" <= input) && !("../" <= input) && input != "." && input != ".."
  {
    var input := e + rest;
    assert forall i | 0 <= i < |e| :: input[i] == e[i];
    assert rest != [] ==> input[|e|] == rest[0];
    PrefixesMean(input);
    assert e == "." <==> |e| == 1 && e[0] == '.';
    assert e == ".." <==> |e| == 2 && e[0] == '.' && e[1] == '.';
  }

  lemma PrefixesMean(input: string)
    ensures "./" <= input <==> |input| >= 2 && input[0] == '.' && input[1] == '/'
    ensures "../" <= input <==> |input| >= 3 && input[0] == '.' && input[1] == '.' && input[2] == '/'
    ensures input == "." <==> |input| == 1 && input[0] == '.'
    ensures input == ".." <==> |input| == 2 && input[0] == '.' && input[1] == '.'
  {
  }

  lemma RemoveMove(input: string, out: string, k: nat)
    requires input != [] && input[0] != '/' && !("./" <= input) && !("../" <= input) && input != "." && input != ".."
    requires k == 1 + Find(input[1..], {'/'})
    ensures RemoveDotSegments(input, out) == RemoveDotSegments(input[k..], out + input[..k])
  {
  }

  /** 2E at the front of an unrooted input. */
  lemma RemoveFirstSegment(e: string, rest: string)
    requires e != [] && Avoids(e, {'/'}) && e != "." && e != ".." && (rest == [] || rest[0] == '/')
    ensures RemoveDotSegments(e + rest, []) == RemoveDotSegments(rest, e)
  {
    hide RemoveDotSegments;
    NoPrefixMatches(e, rest);
    assert (e + rest)[1..] == e[1..] + rest;
    FindConcat(e[1..], rest, {'/'});
    RemoveMove(e + rest, [], |e|);
    DropPrefix(e, rest);
    Empty(e);
  }

  lemma NormalizeAbsolute(path: Path)
    requires IsAbsolute(path)
    ensures PathText(Normalize(path)) == RemoveDotSegments(PathText(path), []) <==> AgreesWithRfc(path)
  {
    hide PathText, SlashText, RemoveDotSegments, Finish;
    var segments := path[1..];
    assert path == [[]] + segments;
    assert ROOT + [] == ROOT;
    assert Step(Progress([], false), []) == Progress([[]] + [], true);
    RootedText(segments);
    SlashTextOfNothing();
    if segments == [] {
      RemoveRooted([], [[]]);
      RfcOfSlash();
      NormalizeOfSlash();
    } else {
      RemoveRooted([], segments);
      CompareRooted([], [], true, 0, segments);
    }
  }

  lemma RfcOfSlash()
    ensures RfcSegments([], [[]]) == [[]]
  {
    assert ROOT[1..] == [];
  }

  lemma NormalizeOfSlash()
    ensures Normalize([[]]) == [[]]
  {
    assert IsNormal([[]]);
    NormalizeFixedPoints([[]]);
  }

  lemma RootedRest(q: Path)
    requires |q| > 1 && q[0] == []
    ensures StartsWithSlash(RemoveDotSegments(JoinText(q), []))
  {
    hide JoinText, SlashText, RemoveDotSegments;
    JoinSlash(q);
    SegmentTextFacts([]);
    Empty(SlashText(q[1..]));
    RemoveFromEmpty(q[1..]);
  }

  lemma FirstKept(q: Path)
    requires q != [] && q[0] != [] && !IsDot(q[0])
    ensures RemoveDotSegments(JoinText(q), []) == RemoveDotSegments(SlashText(q[1..]), JoinText([q[0]]))
  {
    hide JoinText, SlashText, RemoveDotSegments, SegmentText;
    JoinSlash(q);
    var first: Path := [q[0]];
    JoinSlash(first);
    assert first[1..] == [];
    SlashTextOfNothing();
    SlashTextStart(q[1..]);
    Empty(SegmentText(q[0]));
    SegmentTextFacts(q[0]);
    RemoveFirstSegment(SegmentText(q[0]), SlashText(q[1..]));
  }

  lemma NormalizeRelative(path: Path)
    requires Relative(path)
    ensures PathText(Normalize(path)) == RemoveDotSegments(PathText(path), []) <==> AgreesWithRfc(path)
  {
    hide JoinText, PathText, SlashText, RemoveDotSegments, Finish, Agrees, SegmentText;
    var q := DropLeadingDots(path);
    RelativeText(path);
    LeadingDots(path, false);
    if q == [] || q == [[]] {
      RelativeOfNothing(path, q);
    } else if q[0] == [] {
      assert |q| == 1 ==> q == [[]];
      RootedRest(q);
      StaysRelative([], true, q);
      RelativeText(Normalize(path));
    } else {
      DropStops(path);
      FirstKept(q);
      CompareRelative([q[0]], [q[0]], false, 0, q[1..]);
      Empty([q[0]]);
    }
  }

  lemma {:induction false} DropStops(path: Path)
    ensures var q := DropLeadingDots(path); q != [] ==> !IsDot(q[0])
  {
    if path != [] && IsDot(path[0]) {
      DropStops(path[1..]);
    }
  }

  lemma RelativeOfNothing(path: Path, q: Path)
    requires Relative(path) && (q == [] || q == [[]])
    requires Normalize(path) == Finish(Steps(Progress([], q != path), q))
    requires RemoveDotSegments(PathText(path), []) == RemoveDotSegments(JoinText(q), [])
    ensures PathText(Normalize(path)) == RemoveDotSegments(PathText(path), [])
  {
    hide RemoveDotSegments, PathText;
    JoinTextSpecial(q);
    RemoveNothing([]);
    PathTextFacts([]);
    assert ROOT[1..] == [];
  }

  /**
   `normalize_path` computes remove_dot_segments of section 5.2.4 of RFC 3986, on the printed text of
   the path, exactly when `AgreesWithRfc` says so.
   */
  lemma NormalizeIsRemoveDotSegments(path: Path)
    ensures PathText(Normalize(path)) == RemoveDotSegments(PathText(path), []) <==> AgreesWithRfc(path)
  {
    if IsAbsolute(path) {
      NormalizeAbsolute(path);
    } else {
      NormalizeRelative(path);
    }
  }

  // ---- Consequences -----------------------------------------------------------------------------

  /** The only empty segments are the first and the last. */
  ghost predicate Tidy(path: Path) {
    forall i | 0 < i < |path| - 1 :: path[i] != []
  }

  lemma {:induction false} TidyAgrees(kept: Path, dir: bool, segments: Path)
    requires forall i | 0 <= i < |kept| :: kept[i] != []
    requires forall i | 0 <= i < |segments| - 1 :: segments[i] != []
    ensures Agrees(true, kept, dir, 0, segments)
    decreases |segments|
  {
    if segments != [] {
      var s, rest := segments[0], segments[1..];
      if s != [] {
        if !(rest == [] && Closes(dir, s)) {
          TidyAgrees(Kept(kept, dir, s), IsDot(s), rest);
        }
      } else {
        assert rest == [];
      }
    }
  }

  /** On every absolute path without interior empty segments `normalize_path` is remove_dot_segments. */
  lemma NormalizeTidy(path: Path)
    requires IsAbsolute(path) && Tidy(path)
    ensures PathText(Normalize(path)) == RemoveDotSegments(PathText(path), [])
  {
    NormalizeIsRemoveDotSegments(path);
    TidyAgrees([], true, path[1..]);
  }

  /** `//a` becomes `/a`, `/a//.` becomes `/a/`, `a/../b` becomes `b`: section 5.2.4 gives `//a`, `/a//` and `/b`. */
  lemma NormalizeDiffers()
    ensures var p := [[], [], [97]];
            PathText(Normalize(p)) != RemoveDotSegments(PathText(p), [])
    ensures var p := [[], [97], [], DOT];
            PathText(Normalize(p)) != RemoveDotSegments(PathText(p), [])
    ensures var p := [[97], DOT_DOT, [98]];
            PathText(Normalize(p)) != RemoveDotSegments(PathText(p), [])
  {
    hide Normalize, PathText, RemoveDotSegments;
    var p: Path := [[], [], [97]];
    NormalizeIsRemoveDotSegments(p);
    assert p[1..] == [[], [97]] && p[1..][1..] == [[97]];
    var q: Path := [[97], DOT_DOT, [98]];
    NormalizeIsRemoveDotSegments(q);
    assert q[1..] == [DOT_DOT, [98]];
    NoFurtherSlash();
    NormalizeIsRemoveDotSegments([[], [97], [], DOT]);
  }

  lemma NoFurtherSlash()
    ensures !AgreesWithRfc([[], [97], [], DOT])
  {
    var path: Path := [[], [97], [], DOT];
    var a: bytes := [97];
    assert path[1..] == [a, [], DOT] && path[1..][1..] == [[], DOT] && path[1..][1..][1..] == [DOT];
    assert Kept([], true, a) == [a] && Kept([a], false, []) == [a, []];
    assert !Agrees(true, [a, []], true, 0, [DOT]);
    assert !Agrees(true, [a], false, 0, [[], DOT]);
  }

  lemma {:induction false} RfcSegmentsDots(kept: Path, segments: Path)
    requires NoDots(kept)
    ensures NoDots(RfcSegments(kept, segments))
    ensures NoDots(segments) ==> RfcSegments(kept, segments) == kept + segments
    decreases |segments|
  {
    if segments == [] {
      Empty(kept);
    } else {
      RfcSegmentsDots(RfcKept(kept, segments[0]), segments[1..]);
      Shift(kept, segments);
    }
  }

  /** Section 5.2.4 leaves the text of an absolute path alone exactly if it has no dot segments. */
  lemma RemoveDotSegmentsFixed(path: Path)
    requires IsAbsolute(path)
    ensures RemoveDotSegments(PathText(path), []) == PathText(path) <==> NoDots(path)
  {
    hide PathText, SlashText, RemoveDotSegments;
    var segments := if |path| == 1 then [[]] else path[1..];
    assert path == [[]] + path[1..];
    assert |path| == 1 ==> path[1..] == [];
    RootedText(path[1..]);
    SlashTextOfNothing();
    RemoveRooted([], segments);
    RfcSegmentsDots([], segments);
    Empty(segments);
    SlashTextInjective(RfcSegments([], segments), segments);
    NoDotsTail(path);
  }

  lemma NoDotsTail(path: Path)
    requires IsAbsolute(path)
    ensures NoDots(path) <==> NoDots(if |path| == 1 then [[]] else path[1..])
  {
    assert forall i | 0 < i < |path| :: path[i] == path[1..][i - 1];
  }
}
