/**
 The texts `Uri::parse` accepts, and exactly how they differ from URI-reference of appendix A of RFC 3986.
 */
module References {
  import opened Errors
  import opened Sequences
  import opened CharacterClasses
  import opened PercentDecoder
  import opened Codec
  import opened Ascii
  import opened Authorities
  import opened Paths
  import opened Components
  import opened Uris
  import opened RoundTrips
  import HostPort
  import RfcHosts

  // ---- What parse accepts -----------------------------------------------------------------------

  ghost predicate UserinfoText(a: string, v: Authority, userinfo: string, hostPort: string)
    requires v.userinfo.Some?
  {
    && a == userinfo + "@" + hostPort
    && ElementText(userinfo, USER_INFO, v.userinfo.value)
    && HostPort.HostPortText(hostPort, v.host, v.port)
  }

  ghost predicate AuthorityText(a: string, v: Authority) {
    if v.userinfo.None? then HostPort.HostPortText(a, v.host, v.port)
    else exists userinfo, hostPort :: UserinfoText(a, v, userinfo, hostPort)
  }

  ghost predicate SegmentsText(pieces: seq<string>, path: Path) {
    |pieces| == |path| && forall i | 0 <= i < |path| :: ElementText(pieces[i], PCHAR, path[i])
  }

  /** No text and a lone slash are special; any other path is read piece by piece. */
  ghost predicate PathSpelled(text: string, hasAuthority: bool, path: Path) {
    if text == "" then path == if hasAuthority then [[]] else []
    else if text == "/" then path == [[]]
    else SegmentsText(Split(text, '/'), path)
  }

  ghost predicate OptionText(text: Option<string>, b: Option<bytes>) {
    (text.Some? <==> b.Some?) && (text.Some? ==> ElementText(text.value, QUERY_OR_FRAGMENT, b.value))
  }

  /** The components `p`, as text, spell the components of `u`. */
  ghost predicate PartsText(p: Parts, u: Uri) {
    && (p.scheme.Some? <==> u.scheme.Some?)
    && (p.scheme.Some? ==> ValidScheme(p.scheme.value) && u.scheme.value == Lower(p.scheme.value))
    && (p.authority.Some? <==> u.authority.Some?)
    && (p.authority.Some? ==> AuthorityText(p.authority.value, u.authority.value))
    && PathSpelled(p.path, p.authority.Some?, u.path)
    && OptionText(p.query, u.query)
    && OptionText(p.fragment, u.fragment)
  }

  ghost predicate UriText(s: string, u: Uri) {
    exists p :: PartsOk(p) && s == Recompose(p) && PartsText(p, u)
  }

  lemma {:induction false} SegmentsAccepted(pieces: seq<string>, path: Path)
    ensures DecodeSegments(pieces) == Ok(path) <==> SegmentsText(pieces, path)
    decreases |pieces|
  {
    hide Decode, ElementText;
    if pieces != [] {
      var decoded := Decode(pieces[0], PCHAR, InPath);
      if path != [] {
        DecodeAccepts(pieces[0], PCHAR, InPath, path[0]);
        SegmentsAccepted(pieces[1..], path[1..]);
        Uncons(path);
        SegmentsCons(pieces, path);
      }
    }
  }

  lemma SegmentsCons(pieces: seq<string>, path: Path)
    requires pieces != [] && path != []
    ensures SegmentsText(pieces, path) <==>
            ElementText(pieces[0], PCHAR, path[0]) && SegmentsText(pieces[1..], path[1..])
  {
    hide ElementText;
    if SegmentsText(pieces[1..], path[1..]) && ElementText(pieces[0], PCHAR, path[0]) {
      forall i | 0 <= i < |path|
        ensures ElementText(pieces[i], PCHAR, path[i])
      {
        if i > 0 {
          assert pieces[i] == pieces[1..][i - 1] && path[i] == path[1..][i - 1];
        }
      }
    }
  }

  lemma PathAccepted(text: string, hasAuthority: bool, path: Path)
    ensures DecodePath(hasAuthority, text) == Ok(path) <==> PathSpelled(text, hasAuthority, path)
  {
    hide DecodeSegments, SegmentsText, Split;
    SegmentsAccepted(Split(text, '/'), path);
  }

  lemma OptionAccepted(text: Option<string>, context: Context, b: Option<bytes>)
    ensures DecodeOption(text, context) == Ok(b) <==> OptionText(text, b)
  {
    hide Decode, ElementText;
    if text.Some? && b.Some? {
      DecodeAccepts(text.value, QUERY_OR_FRAGMENT, context, b.value);
    }
  }

  lemma AuthorityAccepted(a: string, v: Authority)
    ensures ParseAuthority(a) == Ok(v) <==> AuthorityText(a, v)
  {
    hide Decode, ElementText, HostPort.Parse, HostPort.HostPortText;
    if v.userinfo.None? {
      HostPort.ParseAccepts(a, v.host, v.port);
      PairOf(a, v);
      if HostPort.HostPortText(a, v.host, v.port) {
        RfcHosts.HostPortAvoids(a);
        FindAt(a, {'@'}, |a|);
      }
    } else {
      if ParseAuthority(a) == Ok(v) {
        AuthorityCut(a, v);
      }
      forall userinfo, hostPort | UserinfoText(a, v, userinfo, hostPort)
        ensures ParseAuthority(a) == Ok(v)
      {
        AuthorityJoined(a, v, userinfo, hostPort);
      }
    }
  }

  lemma PairOf(s: string, v: Authority)
    ensures HostPort.Parse(s).Ok? && HostPort.Parse(s).value.0 == v.host && HostPort.Parse(s).value.1 == v.port ==>
              HostPort.Parse(s) == Ok((v.host, v.port))
  {
    hide HostPort.Parse;
    if HostPort.Parse(s).Ok? {
      var (host, port) := HostPort.Parse(s).value;
      assert HostPort.Parse(s).value == (host, port);
    }
  }

  lemma AuthorityCut(a: string, v: Authority)
    requires v.userinfo.Some? && ParseAuthority(a) == Ok(v)
    ensures AuthorityText(a, v)
  {
    hide Decode, ElementText, HostPort.Parse, HostPort.HostPortText;
    var d := Find(a, {'@'});
    CutAt(a, d);
    DecodeAccepts(a[..d], USER_INFO, InUserinfo, v.userinfo.value);
    HostPort.ParseAccepts(a[d + 1..], v.host, v.port);
    PairOf(a[d + 1..], v);
    assert UserinfoText(a, v, a[..d], a[d + 1..]);
  }

  lemma AuthorityJoined(a: string, v: Authority, userinfo: string, hostPort: string)
    requires v.userinfo.Some? && UserinfoText(a, v, userinfo, hostPort)
    ensures ParseAuthority(a) == Ok(v)
  {
    hide Decode, ElementText, HostPort.Parse, HostPort.HostPortText;
    ElementAvoids(userinfo, USER_INFO, v.userinfo.value, '@');
    Assoc(userinfo, "@", hostPort);
    FindConcat(userinfo, "@" + hostPort, {'@'});
    DropPrefix(userinfo + "@", hostPort);
    DecodeAccepts(userinfo, USER_INFO, InUserinfo, v.userinfo.value);
    HostPort.ParseAccepts(hostPort, v.host, v.port);
  }

  lemma PartsAccepted(p: Parts, u: Uri)
    ensures DecodeParts(p) == Ok(u) <==> PartsText(p, u)
  {
    hide ParseAuthority, AuthorityText, ValidScheme, Lower, DecodePath, PathSpelled, DecodeOption, OptionText;
    PathAccepted(p.path, p.authority.Some?, u.path);
    OptionAccepted(p.query, InQuery, u.query);
    OptionAccepted(p.fragment, InFragment, u.fragment);
    if p.authority.Some? && u.authority.Some? {
      AuthorityAccepted(p.authority.value, u.authority.value);
    }
    if p.scheme.Some? && ValidScheme(p.scheme.value) {
      ValidSchemeNotEmpty(p.scheme.value);
    }
  }

  /** `Uri::parse` accepts exactly the texts of the grammar, and returns what they spell. */
  lemma ParseAccepts(s: string, u: Uri)
    ensures Parse(s) == Ok(u) <==> UriText(s, u)
  {
    hide Parse, SplitUri, Recompose, PartsOk, PartsText, DecodeParts;
    ParseIsSplitThenDecode(s);
    RecomposeSplit(s);
    PartsAccepted(SplitUri(s), u);
    forall p | PartsOk(p) && s == Recompose(p) && PartsText(p, u)
      ensures p == SplitUri(s)
    {
      SplitRecompose(p);
    }
  }
}
