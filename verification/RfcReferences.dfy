/**
 URI-reference of appendix A of RFC 3986, and exactly how `Uri::parse` departs from it.
 */
module RfcReferences {
  import opened Errors
  import opened Sequences
  import opened CharacterClasses
  import opened PercentDecoder
  import opened Codec
  import opened Authorities
  import opened Paths
  import opened Components
  import opened Uris
  import opened RoundTrips
  import opened RfcHosts
  import HostPort

  // ---- Appendix A -------------------------------------------------------------------------------

  ghost predicate WithUserinfo(a: string, userinfo: string, hostPort: string) {
    a == userinfo + "@" + hostPort && Complete(userinfo, USER_INFO) && RfcHostPort(hostPort)
  }

  /** [ userinfo "@" ] host [ ":" port ] */
  ghost predicate RfcAuthority(a: string) {
    RfcHostPort(a) || exists userinfo, hostPort :: WithUserinfo(a, userinfo, hostPort)
  }

  /** Segments between the slashes. */
  ghost predicate AllSegments(path: string) {
    forall i | 0 <= i < |Split(path, '/')| :: Complete(Split(path, '/')[i], PCHAR)
  }

  predicate Slashed(path: string) {
    path != [] && path[0] == '/'
  }

  /** path-abempty with an authority; otherwise path-absolute, path-rootless or path-noscheme, or path-empty. */
  ghost predicate RfcPath(p: Parts) {
    && AllSegments(p.path)
    && if p.authority.Some? then p.path == [] || Slashed(p.path)
       else
         || p.path == []
         || (Slashed(p.path) && !("//" <= p.path))
         || (!Slashed(p.path) && (p.scheme.None? ==> ':' !in Split(p.path, '/')[0]))
  }

  ghost predicate RfcTail(part: Option<string>) {
    part.Some? ==> Complete(part.value, QUERY_OR_FRAGMENT)
  }

  ghost predicate RfcParts(p: Parts) {
    && (p.scheme.Some? ==> ValidScheme(p.scheme.value))
    && (p.authority.Some? ==> RfcAuthority(p.authority.value))
    && RfcPath(p) && RfcTail(p.query) && RfcTail(p.fragment)
  }

  /** URI / relative-ref */
  ghost predicate RfcReference(s: string) {
    exists p :: s == Recompose(p) && RfcParts(p)
  }

  // ---- Authorities ------------------------------------------------------------------------------

  function AfterUserinfo(a: string): string {
    var d := Find(a, {'@'});
    if d < |a| then a[d + 1..] else a
  }

  ghost predicate AuthorityConforms(a: string) {
    && (Find(a, {'@'}) < |a| ==> EscapeTail(a[..Find(a, {'@'})]) == [])
    && Conforms(AfterUserinfo(a))
  }

  predicate AuthorityFits(a: string) {
    Fits(AfterUserinfo(a))
  }

  lemma UserinfoCut(a: string, userinfo: string, hostPort: string)
    requires WithUserinfo(a, userinfo, hostPort)
    ensures Find(a, {'@'}) == |userinfo| < |a|
    ensures userinfo == a[..|userinfo|] && hostPort == AfterUserinfo(a)
  {
    hide Complete, RfcHostPort, Find;
    CompleteAvoids(userinfo, USER_INFO, {'@'});
    Assoc(userinfo, "@", hostPort);
    FindConcat(userinfo, "@" + hostPort, {'@'});
    DropPrefix(userinfo + "@", hostPort);
  }

  lemma RfcAuthorityCut(a: string)
    ensures var d := Find(a, {'@'});
            RfcAuthority(a) <==> (d < |a| ==> Complete(a[..d], USER_INFO)) && RfcHostPort(AfterUserinfo(a))
  {
    hide Complete, RfcHostPort, Find;
    var d := Find(a, {'@'});
    if RfcHostPort(a) {
      HostPortAvoids(a);
      FindAt(a, {'@'}, |a|);
    }
    if userinfo, hostPort :| WithUserinfo(a, userinfo, hostPort) {
      UserinfoCut(a, userinfo, hostPort);
    }
    if d < |a| && Complete(a[..d], USER_INFO) && RfcHostPort(a[d + 1..]) {
      CutAt(a, d);
      assert WithUserinfo(a, a[..d], a[d + 1..]);
    }
  }

  lemma AuthorityRelation(a: string)
    ensures ParseAuthority(a).Ok? ==> (RfcAuthority(a) <==> AuthorityConforms(a))
    ensures RfcAuthority(a) ==> (ParseAuthority(a).Ok? <==> AuthorityFits(a))
  {
    hide Complete, RfcHostPort, RfcAuthority, Conforms, Fits, HostPort.Parse, Decode, EscapeTail;
    RfcAuthorityCut(a);
    ParseAcceptsRfc(AfterUserinfo(a));
    var d := Find(a, {'@'});
    CompleteDecodes(a[..d], USER_INFO, InUserinfo);
  }

  lemma RfcAuthorityAvoids(a: string)
    requires RfcAuthority(a)
    ensures Avoids(a, {'/', '?', '#'})
  {
    hide Complete, RfcHostPort, RfcAuthority;
    RfcAuthorityCut(a);
    var d := Find(a, {'@'});
    HostPortAvoids(AfterUserinfo(a));
    if d < |a| {
      CompleteAvoids(a[..d], USER_INFO, {'/', '?', '#'});
      CutAt(a, d);
    }
  }

  // ---- Paths, queries and fragments -------------------------------------------------------------

  lemma {:induction false} SegmentsRelation(pieces: seq<string>)
    ensures (forall i | 0 <= i < |pieces| :: Complete(pieces[i], PCHAR)) <==>
            DecodeSegments(pieces).Ok? && forall i | 0 <= i < |pieces| :: EscapeTail(pieces[i]) == []
  {
    hide Complete, Decode, EscapeTail;
    if pieces != [] {
      SegmentsRelation(pieces[1..]);
      CompleteDecodes(pieces[0], PCHAR, InPath);
      assert forall i | 1 <= i < |pieces| :: pieces[i] == pieces[1..][i - 1];
    }
  }

  lemma PathRelation(path: string, hasAuthority: bool)
    ensures AllSegments(path) <==> DecodePath(hasAuthority, path).Ok? && EscapesComplete(path)
  {
    hide Complete, DecodeSegments, EscapeTail, Split;
    SegmentsRelation(Split(path, '/'));
    if path == "" {
      SplitPeel("", "", '/');
      NothingComplete();
    } else if path == "/" {
      SplitPeel("", "", '/');
      assert path == "" + "/" + "";
      NothingComplete();
    }
  }

  lemma NothingComplete()
    ensures Complete("", PCHAR) && EscapeTail("") == []
  {
    PlainComplete("", PCHAR);
  }

  lemma TailRelation(part: Option<string>, context: Context)
    ensures RfcTail(part) <==> DecodeOption(part, context).Ok? && (part.Some? ==> EscapeTail(part.value) == [])
  {
    hide Complete, Decode, EscapeTail;
    if part.Some? {
      CompleteDecodes(part.value, QUERY_OR_FRAGMENT, context);
    }
  }

  // ---- The components ---------------------------------------------------------------------------

  /** What the RFC asks of accepted components: no unfinished escape, and an authority that conforms. */
  ghost predicate PartsConform(p: Parts) {
    && (p.authority.Some? ==> AuthorityConforms(p.authority.value))
    && EscapesComplete(p.path)
    && (p.query.Some? ==> EscapeTail(p.query.value) == [])
    && (p.fragment.Some? ==> EscapeTail(p.fragment.value) == [])
  }

  lemma FirstPiece(path: string)
    ensures Split(path, '/')[0] == path[..Find(path, {'/'})]
  {
    Empty(path);
  }

  /** A colon in the first piece comes before every slash. */
  lemma FirstPieceColon(path: string)
    ensures Before(path, ':', '/') <==> ':' in Split(path, '/')[0]
  {
    hide Split, Find, Before;
    FirstPiece(path);
    var k := Find(path, {'/'});
    var a, b := path[..k], path[k..];
    assert path == a + b;
    BeforeConcat(a, b, ':', '/');
    BeforeNone(a, ':', '/');
    if b == [] {
      BeforeNone(b, ':', '/');
    } else {
      SlashFirst(b);
    }
  }

  /** Without a scheme, the text that follows has no colon in the first piece of its path. */
  lemma NoSchemeNoColon(p: Parts)
    requires p.scheme.None? && p.authority.None? && !HasScheme(AfterScheme(p))
    ensures ':' !in Split(p.path, '/')[0]
  {
    hide Split, HasScheme, Before;
    var tail := TailText(p.query, p.fragment);
    HasSchemeMeans(AfterScheme(p));
    Empty(p.path);
    BeforeConcat(p.path, tail, ':', '/');
    FirstPieceColon(p.path);
  }

  lemma PartsRelation(p: Parts)
    requires PartsOk(p)
    ensures DecodeParts(p).Ok? ==> (RfcParts(p) <==> PartsConform(p))
    ensures RfcParts(p) ==> (DecodeParts(p).Ok? <==> (p.authority.Some? ==> AuthorityFits(p.authority.value)))
  {
    hide RfcAuthority, AuthorityConforms, AuthorityFits, ParseAuthority, AllSegments, EscapesComplete, DecodePath,
      RfcTail, DecodeOption, EscapeTail, ValidScheme, HasScheme, AfterScheme, Split;
    if p.authority.Some? {
      AuthorityRelation(p.authority.value);
    } else if p.scheme.None? {
      NoSchemeNoColon(p);
    }
    PathRelation(p.path, p.authority.Some?);
    TailRelation(p.query, InQuery);
    TailRelation(p.fragment, InFragment);
    if p.scheme.Some? && ValidScheme(p.scheme.value) {
      ValidSchemeNotEmpty(p.scheme.value);
    }
  }

  // ---- The whole text ---------------------------------------------------------------------------

  lemma {:induction false} JoinAvoids(pieces: seq<string>, ds: set<char>)
    requires '/' !in ds && forall i | 0 <= i < |pieces| :: Avoids(pieces[i], ds)
    ensures Avoids(Join(pieces, '/'), ds)
  {
    if |pieces| > 1 {
      JoinAvoids(pieces[1..], ds);
    }
  }

  lemma SegmentsAvoid(path: string)
    requires AllSegments(path)
    ensures Avoids(path, {'?', '#'})
  {
    hide Complete, Split, Join;
    var pieces := Split(path, '/');
    forall i | 0 <= i < |pieces|
      ensures Avoids(pieces[i], {'?', '#'})
    {
      CompleteAvoids(pieces[i], PCHAR, {'?', '#'});
    }
    JoinAvoids(pieces, {'?', '#'});
    JoinSplit(path, '/');
  }

  lemma RfcPartsHier(p: Parts)
    requires RfcParts(p)
    ensures HierOk(p.authority, p.path) && TailOk(p.query)
  {
    hide RfcAuthority, AllSegments, Complete, ValidScheme, Split;
    SegmentsAvoid(p.path);
    DoubleSlashMeans(p.path);
    if p.authority.Some? {
      RfcAuthorityAvoids(p.authority.value);
    }
    if p.query.Some? {
      CompleteAvoids(p.query.value, QUERY_OR_FRAGMENT, {'#'});
    }
  }

  /** A colon that only the query or the fragment can have contributed. */
  predicate ColonInTail(s: string) {
    HasScheme(s) && !AvoidsMarks(s[..SchemeEnd(s)])
  }

  predicate AvoidsMarks(s: string) {
    '?' !in s && '#' !in s
  }

  lemma TailColon(path: string, tail: string)
    requires ':' !in path && tail != [] && tail[0] in {'?', '#'} && HasScheme(path + tail)
    ensures ColonInTail(path + tail)
  {
    hide Find, SchemeEnd;
    var s := path + tail;
    SchemeEndFacts(s);
    var end := SchemeEnd(s);
    assert forall i | 0 <= i < |path| :: s[i] == path[i];
    assert s[|path|] == tail[0];
    assert s[..end][|path|] == tail[0];
  }

  /** Components of the RFC are those of the split, unless a colon in query or fragment reads as a scheme's end. */
  lemma RfcPartsScheme(p: Parts)
    requires RfcParts(p)
    ensures SchemeOk(p.scheme, AfterScheme(p)) || (p.scheme.None? && ColonInTail(AfterScheme(p)))
  {
    hide RfcAuthority, AllSegments, RfcTail, HasScheme, Split, Before, ColonInTail, TailText, ValidScheme;
    var rest, tail := AfterScheme(p), TailText(p.query, p.fragment);
    if p.scheme.Some? {
      ValidSchemeAvoids(p.scheme.value);
    } else if HasScheme(rest) {
      HasSchemeMeans(rest);
      TailStart(p.query, p.fragment);
      if p.authority.Some? {
        SlashFirst(rest);
      } else {
        Empty(p.path);
        BeforeConcat(p.path, tail, ':', '/');
        FirstPieceColon(p.path);
        FirstPiece(p.path);
        if Slashed(p.path) {
          SlashFirst(rest);
        } else {
          UnslashedColon(p.path, tail);
        }
      }
    }
  }

  lemma UnslashedColon(path: string, tail: string)
    requires ':' !in Split(path, '/')[0] && '/' !in path && (tail == [] || tail[0] in {'?', '#'})
    requires HasScheme(path + tail)
    ensures ColonInTail(path + tail)
  {
    hide HasScheme, ColonInTail, Split, Before;
    FirstPiece(path);
    FindAt(path, {'/'}, |path|);
    Empty(path);
    if tail == [] {
      HasSchemeMeans(path);
      BeforeNone(path, ':', '/');
    } else {
      TailColon(path, tail);
    }
  }

  /** What the RFC asks of accepted text. */
  ghost predicate UriConforms(s: string) {
    PartsConform(SplitUri(s))
  }

  /** What the code asks of text of the RFC. */
  predicate UriFits(s: string) {
    !ColonInTail(s) && (SplitUri(s).authority.Some? ==> AuthorityFits(SplitUri(s).authority.value))
  }

  lemma ColonInTailRejected(s: string)
    requires ColonInTail(s)
    ensures Parse(s).Err?
  {
    hide Parse, HasScheme, SchemeEnd, ValidScheme;
    if ValidScheme(s[..SchemeEnd(s)]) {
      ValidSchemeAvoids(s[..SchemeEnd(s)]);
      assert false;
    }
    BadSchemeRejected(s);
  }

  /** Components of the RFC that make up accepted or fitting text are those of the split. */
  lemma RfcPartsSplit(s: string, p: Parts)
    requires s == Recompose(p) && RfcParts(p) && !ColonInTail(s)
    ensures PartsOk(p) && SplitUri(s) == p
  {
    hide RfcParts, ColonInTail, HierOk, TailOk, AfterScheme, SplitUri;
    RfcPartsHier(p);
    RfcPartsScheme(p);
    Empty(AfterScheme(p));
    SplitRecompose(p);
  }

  /**
   The URI-references of the RFC are exactly the accepted texts that conform: no unfinished escape
   anywhere, and an authority that conforms. And of the RFC's texts exactly those are accepted that fit:
   no colon in query or fragment where it reads as a scheme's end, and an authority that fits.
   */
  lemma ParseAcceptsReferences(s: string)
    ensures Parse(s).Ok? ==> (RfcReference(s) <==> UriConforms(s))
    ensures RfcReference(s) ==> (Parse(s).Ok? <==> UriFits(s))
  {
    hide Parse, SplitUri, Recompose, RfcParts, PartsConform, PartsOk, DecodeParts, ColonInTail, AuthorityFits;
    ParseIsSplitThenDecode(s);
    RecomposeSplit(s);
    PartsRelation(SplitUri(s));
    if ColonInTail(s) {
      ColonInTailRejected(s);
    } else {
      forall p | s == Recompose(p) && RfcParts(p)
        ensures p == SplitUri(s)
      {
        RfcPartsSplit(s, p);
      }
    }
  }

  /** `?a:b` is a relative reference, and is rejected. */
  lemma ColonInQueryIsReference()
    ensures RfcReference("?a:b") && Parse("?a:b").Err?
  {
    hide Parse, Complete, Split;
    var p := Parts(None, None, "", Some("a:b"), None);
    PlainComplete("a:b", QUERY_OR_FRAGMENT);
    SplitPeel("", "", '/');
    NothingComplete();
    assert RfcParts(p) && Recompose(p) == "?a:b";
    ColonInQueryExample();
  }

  /** `%` is accepted, and is no reference. */
  lemma UnfinishedAccepted()
    ensures Parse("%").Ok? && !RfcReference("%")
  {
    hide Parse, DecodeParts, SplitUri, Recompose, PartsOk, RfcReference;
    var p := Parts(None, None, "%", None, None);
    UnfinishedParts();
    SplitRecompose(p);
    ParseIsSplitThenDecode("%");
    ParseAcceptsReferences("%");
  }

  lemma UnfinishedParts()
    ensures var p := Parts(None, None, "%", None, None);
            PartsOk(p) && Recompose(p) == "%" && DecodeParts(p).Ok? && !PartsConform(p)
  {
    hide Split, Decode, DecodeSegments;
    HasSchemeMeans("%");
    assert "%"[1..] == "";
    assert AfterScheme(Parts(None, None, "%", None, None)) == "%";
    SplitPeel("%", "", '/');
    DecodeUnfinished("%", PCHAR, InPath);
    DecodeSegmentsOne("%");
    assert Split("%", '/')[0] == "%" && EscapeTail("%") == "%";
  }
}
