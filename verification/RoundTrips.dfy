/**
 When parsing undoes printing, and what printing does to parsed text.
 */
module RoundTrips {
  import opened Errors
  import opened Sequences
  import opened CharacterClasses
  import opened PercentDecoder
  import opened Codec
  import opened Ascii
  import opened Authorities
  import opened Paths
  import opened Components
  import opened Uris

  /** What a round trip makes of a URI: scheme and host in lower case. */
  function Canon(u: Uri): Uri {
    u.(
    scheme := if u.scheme.Some? then Some(Lower(u.scheme.value)) else None,
    authority := if u.authority.Some? then Some(CanonAuthority(u.authority.value)) else None)
  }

  predicate StartsDoubleSlash(path: Path) {
    |path| >= 2 && path[0] == [] && path[1] == []
  }

  function OptionBytes(part: Option<bytes>): bytes {
    if part.Some? then part.value else []
  }

  function TailBytes(u: Uri): bytes {
    OptionBytes(u.query) + OptionBytes(u.fragment)
  }

  /**
   Printed without a scheme, these components read as if there were one: a colon in the first segment
   of a relative path, or, with no slash in the path, a colon in query and fragment before any slash.
   */
  predicate ReadsAsScheme(hasAuthority: bool, path: Path, tail: bytes) {
    && !hasAuthority && !IsAbsolute(path)
    && ((path != [] && COLON in path[0]) || (|path| <= 1 && Before(tail, COLON, SLASH)))
  }

  /** The URIs that survive printing and parsing, given a valid scheme or none. */
  predicate ReadsBack(u: Uri) {
    && (u.authority.Some? ==> IsAbsolute(u.path) && u.path != [[], []])
    && (u.authority.None? ==> !StartsDoubleSlash(u.path))
    && (u.scheme.None? ==> !ReadsAsScheme(u.authority.Some?, u.path, TailBytes(u)))
  }

  /** The URIs that survive printing and parsing. */
  predicate Printable(u: Uri) {
    (u.scheme.Some? ==> ValidScheme(u.scheme.value)) && ReadsBack(u)
  }

  // ---- Printed text that reads as if it had a scheme --------------------------------------------

  lemma OptionBefore(mark: char, part: Option<bytes>, allowed: set<char>)
    requires ':' in allowed && '/' in allowed && mark != ':' && mark != '/'
    ensures var text := if part.Some? then [mark] + Encode(part.value, allowed) else [];
            && (Before(text, ':', '/') <==> Before(OptionBytes(part), COLON, SLASH))
            && ('/' in text <==> SLASH in OptionBytes(part))
  {
    if part.Some? {
      HeadTail(mark, Encode(part.value, allowed));
      EncodeBefore(part.value, allowed);
      EncodeContains(part.value, allowed, '/');
    }
  }

  lemma TailBefore(u: Uri)
    ensures Before(TailText(ToParts(u).query, ToParts(u).fragment), ':', '/') <==> Before(TailBytes(u), COLON, SLASH)
  {
    hide Encode, Before;
    var query := if u.query.Some? then "?" + Encode(u.query.value, QUERY_WITHOUT_PLUS) else [];
    var fragment := if u.fragment.Some? then "#" + Encode(u.fragment.value, QUERY_OR_FRAGMENT) else [];
    OptionBefore('?', u.query, QUERY_WITHOUT_PLUS);
    OptionBefore('#', u.fragment, QUERY_OR_FRAGMENT);
    BeforeConcat(query, fragment, ':', '/');
    BeforeConcat(OptionBytes(u.query), OptionBytes(u.fragment), COLON, SLASH);
  }

  lemma PathBefore(path: Path)
    requires !IsAbsolute(path)
    ensures Before(PathText(path), ':', '/') <==> path != [] && COLON in path[0]
    ensures '/' in PathText(path) <==> |path| > 1
  {
    hide Encode, Before;
    if path != [] {
      var e := SegmentText(path[0]);
      SegmentTextFacts(path[0]);
      BeforeNone(e, ':', '/');
      EncodeContains(path[0], PCHAR, ':');
      if |path| > 1 {
        var rest := JoinText(path[1..]);
        Assoc(e, "/", rest);
        BeforeConcat(e, "/" + rest, ':', '/');
        SlashFirst("/" + rest);
        assert PathText(path)[|e|] == '/';
      }
    } else {
      BeforeNone<char>([], ':', '/');
    }
  }

  /** Text that starts with a slash has no colon before its first slash. */
  lemma SlashFirst(s: string)
    requires s != [] && s[0] == '/'
    ensures !Before(s, ':', '/')
  {
  }

  lemma AuthorityTextStart(u: Uri)
    requires u.authority.Some? && u.scheme.None?
    ensures Print(u) != [] && Print(u)[0] == '/'
  {
    hide PrintAuthority, PathText;
  }

  /** Exactly when the printed form of a URI without a scheme is taken to have one. */
  lemma PrintedScheme(u: Uri)
    requires u.scheme.None?
    ensures HasScheme(Print(u)) <==> ReadsAsScheme(u.authority.Some?, u.path, TailBytes(u))
  {
    hide HasScheme, Before, PathText, TailText, TailBytes, PrintAuthority;
    HasSchemeMeans(Print(u));
    if u.authority.Some? {
      AuthorityTextStart(u);
      SlashFirst(Print(u));
    } else {
      var path, tail := PathText(u.path), TailText(ToParts(u).query, ToParts(u).fragment);
      Empty(path);
      Empty(path + tail);
      BeforeConcat(path, tail, ':', '/');
      TailBefore(u);
      if IsAbsolute(u.path) {
        PathTextFacts(u.path);
        SlashFirst(path + tail);
      } else {
        PathBefore(u.path);
      }
    }
  }

  lemma ValidSchemeAvoids(s: string)
    requires ValidScheme(s)
    ensures Avoids(s, {'/', ':', '?', '#'})
  {
  }

  /** Validity of a scheme does not depend on case. */
  lemma ValidSchemeLower(s: string, t: string)
    requires Lower(s) == Lower(t)
    ensures ValidScheme(s) <==> ValidScheme(t)
  {
    assert |s| == |t| by { assert |Lower(s)| == |Lower(t)|; }
    forall i | 0 <= i < |s|
      ensures s[i] in ALPHA <==> t[i] in ALPHA
      ensures s[i] in SCHEME_NOT_FIRST <==> t[i] in SCHEME_NOT_FIRST
    {
      assert Lower(s)[i] == Lower(t)[i];
      SameClass(s[i], t[i]);
    }
  }

  lemma SameClass(c: char, d: char)
    requires LowerChar(c) == LowerChar(d)
    ensures c in ALPHA <==> d in ALPHA
    ensures c in SCHEME_NOT_FIRST <==> d in SCHEME_NOT_FIRST
  {
  }

  /** A path text starts with two slashes exactly if two empty segments are followed by another one. */
  lemma DoubleSlashText(path: Path)
    ensures "//" <= PathText(path) <==> StartsDoubleSlash(path) && |path| > 2
  {
    hide SegmentText, JoinText;
    var t := PathText(path);
    PathTextFacts(path);
    assert "//" <= t <==> |t| >= 2 && t[0] == '/' && t[1] == '/';
    if IsAbsolute(path) && |path| >= 2 {
      SegmentTextFacts([]);
      AbsoluteText(path);
      var rest := path[1..];
      assert t == "/" + JoinText(rest);
      PathTextFacts(rest);
      JoinTextSpecial(rest);
      assert rest[0] == path[1];
      assert rest == [[]] <==> |path| == 2 && path[1] == [];
    }
  }

  lemma AbsoluteText(path: Path)
    requires IsAbsolute(path) && |path| >= 2
    ensures PathText(path) == "/" + JoinText(path[1..])
  {
    hide SegmentText;
    SegmentTextFacts([]);
    Empty("/");
  }

  lemma PrintableHier(u: Uri)
    requires u.authority.Some? ==> IsAbsolute(u.path)
    requires u.authority.None? ==> !StartsDoubleSlash(u.path)
    ensures HierOk(ToParts(u).authority, ToParts(u).path)
  {
    hide PathText, PrintAuthority;
    PathTextFacts(u.path);
    if u.authority.Some? {
      PrintAuthorityAvoids(u.authority.value);
    } else {
      DoubleSlashText(u.path);
    }
  }

  lemma PrintedTailOk(u: Uri)
    ensures TailOk(ToParts(u).query)
  {
    if u.query.Some? {
      EncodeAvoids(u.query.value, QUERY_WITHOUT_PLUS, {'#'});
    }
  }

  lemma PrintableParts(u: Uri)
    requires Printable(u)
    ensures PartsOk(ToParts(u))
  {
    hide ToParts, HierOk, TailOk, AfterScheme, ValidScheme, HasScheme, ReadsAsScheme;
    PrintableHier(u);
    PrintedTailOk(u);
    PartsScheme(u);
    if u.scheme.Some? {
      ValidSchemeAvoids(u.scheme.value);
    } else {
      PrintedScheme(u);
      Empty(AfterScheme(ToParts(u)));
    }
  }

  lemma PartsScheme(u: Uri)
    ensures ToParts(u).scheme == u.scheme
    ensures u.authority.Some? <==> ToParts(u).authority.Some?
    ensures ToParts(u).path == PathText(u.path)
  {
  }

  /** Decoding the printed components. */
  lemma DecodePrinted(u: Uri)
    requires u.scheme.Some? ==> ValidScheme(u.scheme.value)
    requires u.path != [[], []] && (u.authority.Some? ==> u.path != [])
    ensures DecodeParts(ToParts(u)) == Ok(Canon(u))
  {
    hide ValidScheme, ParseAuthority, PrintAuthority, ParsePath, PathText, Decode, Encode, Lower, CanonAuthority;
    if u.scheme.Some? {
      ValidSchemeNotEmpty(u.scheme.value);
    }
    if u.authority.Some? {
      AuthorityRoundTrip(u.authority.value);
    }
    PathRoundTrip(u.path);
    PathTextFacts(u.path);
    if u.query.Some? {
      DecodeEncode(u.query.value, QUERY_WITHOUT_PLUS, QUERY_OR_FRAGMENT, InQuery);
    }
    if u.fragment.Some? {
      DecodeEncode(u.fragment.value, QUERY_OR_FRAGMENT, QUERY_OR_FRAGMENT, InFragment);
    }
  }

  lemma ValidSchemeNotEmpty(s: string)
    requires ValidScheme(s)
    ensures CheckScheme(s) == Ok(s)
  {
  }

  /** Parsing a printed Printable URI gives it back, scheme and host in lower case. */
  lemma ParsePrint(u: Uri)
    requires Printable(u)
    ensures Parse(Print(u)) == Ok(Canon(u))
  {
    hide Parse, ToParts, SplitUri, Recompose, DecodeParts, Canon;
    PrintableParts(u);
    ParseIsSplitThenDecode(Print(u));
    SplitRecompose(ToParts(u));
    DecodePrinted(u);
  }

  // ---- Only Printable URIs round trip -----------------------------------------------------------

  /** The round trip succeeds. */
  ghost predicate Survives(u: Uri) {
    Parse(Print(u)) == Ok(Canon(u))
  }

  /** If the round trip succeeds, the scheme was valid and the split finds it again. */
  lemma RoundTripScheme(u: Uri)
    ensures Survives(u) ==>
              && (u.scheme.Some? ==> ValidScheme(u.scheme.value))
              && (u.scheme.None? ==> !HasScheme(Print(u)))
              && SplitScheme(Print(u)) == (u.scheme, AfterScheme(ToParts(u)))
  {
    hide Parse, ValidScheme, Lower, AfterScheme, HasScheme, SplitScheme, ToParts;
    var s := Print(u);
    ParsedSchemeStage(s);
    SplitSchemeCases(s);
    PartsScheme(u);
    if Survives(u) {
      if u.scheme.Some? {
        ValidSchemeLower(SplitScheme(s).0.value, u.scheme.value);
        ValidSchemeAvoids(u.scheme.value);
      } else {
        Empty(AfterScheme(ToParts(u)));
      }
      SplitSchemeText(u.scheme, AfterScheme(ToParts(u)));
    }
  }

  lemma ParsedSchemeStage(s: string)
    ensures var scheme := SplitScheme(s).0;
            Parse(s).Ok? ==>
            && (scheme.None? ==> Parse(s).value.scheme == None)
            && (scheme.Some? ==> ValidScheme(scheme.value) && Parse(s).value.scheme == Some(Lower(scheme.value)))
  {
    hide ParseAuthorityAndPath, ParseFragment, ParseQuery, ValidScheme, Lower;
  }

  lemma SplitSchemeCases(s: string)
    ensures SplitScheme(s).0.Some? <==> HasScheme(s)
  {
  }

  /** The path the hierarchical stage reads is absolute if an authority precedes it. */
  lemma DecodedPathAbsolute(path: string)
    requires path == [] || path[0] == '/'
    requires DecodePath(true, path).Ok?
    ensures IsAbsolute(DecodePath(true, path).value)
  {
    if path != [] && path != "/" {
      assert path == [] + "/" + path[1..];
      SplitPeel([], path[1..], '/');
    }
  }

  lemma RoundTripHier(u: Uri)
    ensures var (a, p) := SplitHier(HierText(ToParts(u).authority, ToParts(u).path));
            Survives(u) ==>
            && DecodeAuthority(a) == Ok(Canon(u).authority)
            && DecodePath(a.Some?, p) == Ok(u.path)
            && HierOk(a, p)
  {
    hide Parse, ToParts, HierText, TailText, SplitScheme, SplitHier, SplitTail, DecodeAuthority, DecodePath,
      DecodeOption, DecodeScheme, HierOk;
    var parts := ToParts(u);
    var hier, tail := HierText(parts.authority, parts.path), TailText(parts.query, parts.fragment);
    RoundTripScheme(u);
    ParseIsSplitThenDecode(Print(u));
    PrintedHierAvoids(u);
    TailStart(parts.query, parts.fragment);
    FindConcat(hier, tail, {'?', '#'});
    SplitHierOk(hier);
  }

  lemma PrintedHierAvoids(u: Uri)
    ensures Avoids(HierText(ToParts(u).authority, ToParts(u).path), {'?', '#'})
  {
    hide PathText, PrintAuthority;
    PathTextFacts(u.path);
    if u.authority.Some? {
      PrintAuthorityAvoids(u.authority.value);
    }
  }

  lemma RoundTripWithAuthority(u: Uri)
    requires u.authority.Some?
    ensures Survives(u) ==> IsAbsolute(u.path) && u.path != [[], []]
  {
    hide Survives, PathText, PrintAuthority, HierText, SplitHier, DecodeAuthority;
    RoundTripHier(u);
    var parts := ToParts(u);
    var (a, p) := SplitHier(HierText(parts.authority, parts.path));
    DecodeAuthoritySome(a);
    if Survives(u) {
      DecodedPathAbsolute(p);
      PrintableHier(u);
      SplitHierText(parts.authority, parts.path);
      PathRoundTrip(u.path);
      PathTextFacts(u.path);
    }
  }

  lemma DecodeAuthoritySome(a: Option<string>)
    ensures DecodeAuthority(a).Ok? ==> (DecodeAuthority(a).value.Some? <==> a.Some?)
  {
  }

  lemma RoundTripWithoutAuthority(u: Uri)
    requires u.authority.None?
    ensures Survives(u) ==> !StartsDoubleSlash(u.path)
  {
    hide Survives, PathText, DecodeAuthority;
    RoundTripHier(u);
    var (a, p) := SplitHier(HierText(ToParts(u).authority, ToParts(u).path));
    DecodeAuthoritySome(a);
    Empty(PathText(u.path));
    PathRoundTrip(u.path);
    DoubleSlashText(u.path);
  }

  /**
   The full round trip: parsing the printed form gives the URI back, with scheme and host in lower
   case, if and only if the URI is Printable. Userinfo, host, segments, query and fragment are
   arbitrary bytes.
   */
  lemma RoundTrip(u: Uri)
    ensures Parse(Print(u)) == Ok(Canon(u)) <==> Printable(u)
  {
    hide Parse, Print, Canon, HasScheme, ValidScheme, StartsDoubleSlash, ReadsAsScheme;
    if Printable(u) {
      ParsePrint(u);
    }
    if Parse(Print(u)) == Ok(Canon(u)) {
      RoundTripScheme(u);
      if u.scheme.None? {
        PrintedScheme(u);
      }
      if u.authority.Some? {
        RoundTripWithAuthority(u);
      } else {
        RoundTripWithoutAuthority(u);
      }
    }
  }

  /** On Printable URIs that are their own canonical form, printing is injective. */
  lemma PrintInjective(u: Uri, v: Uri)
    requires Printable(u) && Printable(v) && Canon(u) == u && Canon(v) == v
    requires Print(u) == Print(v)
    ensures u == v
  {
    hide Parse, Print, Canon, Printable;
    ParsePrint(u);
    ParsePrint(v);
  }

  lemma LowerTwice(s: string)
    ensures Lower(Lower(s)) == Lower(s)
  {
  }

  lemma CanonTwice(u: Uri)
    ensures Canon(Canon(u)) == Canon(u)
  {
    if u.scheme.Some? {
      LowerTwice(u.scheme.value);
    }
    if u.authority.Some? {
      var host := u.authority.value.host;
      assert LowerBytes(LowerBytes(host)) == LowerBytes(host);
    }
  }

  lemma CanonPrintable(u: Uri)
    requires Printable(u)
    ensures Printable(Canon(u))
  {
    hide ValidScheme, ReadsAsScheme, StartsDoubleSlash, CanonAuthority;
    if u.scheme.Some? {
      LowerTwice(u.scheme.value);
      ValidSchemeLower(u.scheme.value, Lower(u.scheme.value));
    }
  }

  // ---- Parsed text ------------------------------------------------------------------------------

  /** The first two pieces of a path decode to nothing; after an authority, they are the whole path. */
  predicate StrayPath(path: string, hasAuthority: bool) {
    var segments := Split(path, '/');
    && path != "/" && |segments| >= 2
    && Unfinished(segments[0]) && Unfinished(segments[1])
    && (hasAuthority ==> |segments| == 2)
  }

  /**
   The first two raw segments of the path decode to nothing although the path text does not start
   with two slashes: at least one of them is an unfinished escape. After an authority it matters
   only if they are the whole path.
   */
  predicate StrayEscape(p: Parts) {
    StrayPath(p.path, p.authority.Some?)
  }

  lemma {:induction false} DecodedSegment(parts: seq<string>, i: nat)
    requires DecodeSegments(parts).Ok? && i < |parts|
    ensures |DecodeSegments(parts).value| == |parts|
    ensures Decode(parts[i], PCHAR, InPath) == Ok(DecodeSegments(parts).value[i])
    ensures DecodeSegments(parts).value[i] == [] <==> Unfinished(parts[i])
  {
    hide Unfinished, Decode;
    if i > 0 {
      DecodedSegment(parts[1..], i - 1);
    } else {
      DecodeUnfinished(parts[0], PCHAR, InPath);
      if |parts| > 1 {
        DecodedSegment(parts[1..], 0);
      }
    }
  }

  lemma ParsedDoubleSlash(t: string, q: Path)
    requires ParsePath(t) == Ok(q)
    ensures var segments := Split(t, '/');
            StartsDoubleSlash(q) <==>
            t != "/" && |segments| >= 2 && Unfinished(segments[0]) && Unfinished(segments[1])
    ensures t != "/" && t != "" ==> |q| == |Split(t, '/')|
  {
    hide Unfinished, Split, DecodeSegments;
    if t == "" {
      SplitPeel("", "", '/');
    } else if t != "/" {
      var segments := Split(t, '/');
      DecodedSegment(segments, 0);
      if |segments| > 1 {
        DecodedSegment(segments, 1);
      }
    }
  }

  /**
   The raw components print as if there were a scheme: the first piece of the path spells a colon, or,
   with no slash in the path, query and fragment spell one before any slash. An unfinished escape alone
   before the first slash makes the path absolute.
   */
  predicate HidesScheme(p: Parts) {
    var pieces := Split(p.path, '/');
    && p.authority.None?
    && (p.path == [] || !Unfinished(pieces[0]))
    && (Spells(pieces[0], COLON) || (|pieces| == 1 && SpellsBefore(TailText(p.query, p.fragment), COLON, SLASH)))
  }

  lemma OptionSpells(mark: char, part: Option<string>, b: Option<bytes>, context: Context)
    requires DecodeOption(part, context) == Ok(b) && mark in {'?', '#'}
    ensures var text := if part.Some? then [mark] + part.value else [];
            && (SpellsBefore(text, COLON, SLASH) <==> Before(OptionBytes(b), COLON, SLASH))
            && (Spells(text, SLASH) <==> SLASH in OptionBytes(b))
  {
    hide Decode;
    if part.Some? {
      HeadTail(mark, part.value);
      DecodedSpells(part.value, QUERY_OR_FRAGMENT, context, COLON, SLASH);
      DecodedSpells(part.value, QUERY_OR_FRAGMENT, context, SLASH, COLON);
    }
  }

  lemma TailSpells(p: Parts, u: Uri)
    requires DecodeParts(p) == Ok(u)
    ensures SpellsBefore(TailText(p.query, p.fragment), COLON, SLASH) <==> Before(TailBytes(u), COLON, SLASH)
  {
    hide DecodeScheme, DecodeAuthority, DecodePath, DecodeOption, Before, SpellsBefore, Spells;
    OptionSpells('?', p.query, u.query, InQuery);
    OptionSpells('#', p.fragment, u.fragment, InFragment);
    var query := if p.query.Some? then "?" + p.query.value else [];
    var fragment := if p.fragment.Some? then "#" + p.fragment.value else [];
    SpellsConcat(query, fragment, COLON, SLASH);
    BeforeConcat(OptionBytes(u.query), OptionBytes(u.fragment), COLON, SLASH);
  }

  lemma FirstPieceSpells(path: string, q: Path)
    requires ParsePath(path) == Ok(q)
    ensures var pieces := Split(path, '/');
            && (IsAbsolute(q) <==> path != [] && Unfinished(pieces[0]))
            && (|q| <= 1 && !IsAbsolute(q) <==> |pieces| == 1 && (path == [] || !Unfinished(pieces[0])))
            && (!IsAbsolute(q) ==> (q != [] && COLON in q[0] <==> Spells(pieces[0], COLON)))
  {
    hide Split, DecodeSegments, Decode;
    var pieces := Split(path, '/');
    if path == "" {
      SplitPeel("", "", '/');
    } else if path == "/" {
      SplitPeel("", "", '/');
      assert path == "" + "/" + "";
    } else {
      hide Unfinished, Spells;
      DecodedSegment(pieces, 0);
      DecodedSpells(pieces[0], PCHAR, InPath, COLON, SLASH);
    }
  }

  lemma ParsedReads(p: Parts, u: Uri)
    requires DecodeParts(p) == Ok(u)
    ensures ReadsAsScheme(u.authority.Some?, u.path, TailBytes(u)) <==> HidesScheme(p)
  {
    hide DecodeScheme, ParseAuthority, ParsePath, DecodeOption, Before, SpellsBefore, Spells, Unfinished, Split,
      TailBytes, TailText;
    TailSpells(p, u);
    if p.authority.None? {
      FirstPieceSpells(p.path, u.path);
    }
  }

  /** For accepted text, which parsed URIs are Printable: a condition on the raw components alone. */
  lemma ParsedPrintable(s: string, u: Uri)
    requires Parse(s) == Ok(u)
    ensures var p := SplitUri(s);
            && (p.scheme.Some? <==> u.scheme.Some?)
            && (Printable(u) <==> !StrayEscape(p) && (p.scheme.None? ==> !HidesScheme(p)))
  {
    hide Parse, SplitUri, ReadsAsScheme, HidesScheme, ValidScheme, StrayEscape, StartsDoubleSlash, PartsOk;
    ParseIsSplitThenDecode(s);
    RecomposeSplit(s);
    var p := SplitUri(s);
    ParsedScheme(p, u);
    ParsedPathStray(p, u);
    ParsedReads(p, u);
  }

  lemma ParsedScheme(p: Parts, u: Uri)
    requires DecodeParts(p) == Ok(u)
    ensures u.scheme.Some? <==> p.scheme.Some?
    ensures u.scheme.Some? ==> ValidScheme(u.scheme.value) && Lower(u.scheme.value) == u.scheme.value
  {
    hide ValidScheme, ParseAuthority, ParsePath, Decode;
    if p.scheme.Some? {
      LowerTwice(p.scheme.value);
      ValidSchemeLower(p.scheme.value, Lower(p.scheme.value));
    }
  }

  lemma ParsedPathStray(p: Parts, u: Uri)
    requires PartsOk(p) && DecodeParts(p) == Ok(u)
    ensures if u.authority.Some? then IsAbsolute(u.path) && (u.path == [[], []] <==> StrayEscape(p))
            else StartsDoubleSlash(u.path) <==> StrayEscape(p)
  {
    hide ValidScheme, ParseAuthority, ParsePath, Decode, Split, Unfinished, SchemeOk, TailOk, Avoids;
    if p.authority.Some? {
      DecodedPathAbsolute(p.path);
      if p.path == [] {
        SplitPeel("", "", '/');
      } else {
        ParsedDoubleSlash(p.path, u.path);
        if p.path == "/" {
          ParseSlash();
        }
        assert u.path == [[], []] <==> |u.path| == 2 && StartsDoubleSlash(u.path);
      }
    } else {
      ParsedDoubleSlash(p.path, u.path);
    }
  }

  lemma ParseSlash()
    ensures ParsePath("/") == Ok([[]])
  {
  }

  /**
   A stray escape changes the meaning: `x:/%/b` parses to the segments "", "", "b", which print as
   `x://b`, and that has an authority.
   */
  lemma StrayEscapeExample()
    ensures var u := Uri(Some("x"), None, [[], [], [98]], None, None);
            Parse("x:/%/b") == Ok(u) && Parse(Print(u)) != Ok(Canon(u))
  {
    hide Parse, Print, Canon, SplitUri, Recompose, DecodePath;
    var p := Parts(Some("x"), None, "/%/b", None, None);
    var u := Uri(Some("x"), None, [[], [], [98]], None, None);
    StrayParts();
    SplitRecompose(p);
    ParseIsSplitThenDecode("x:/%/b");
    StrayPathDecodes();
    assert Lower("x") == "x";
    RoundTrip(u);
  }

  lemma StrayParts()
    ensures var p := Parts(Some("x"), None, "/%/b", None, None);
            PartsOk(p) && Recompose(p) == "x:/%/b"
  {
    DoubleSlashMeans("/%/b");
  }

  lemma StrayPathDecodes()
    ensures DecodePath(false, "/%/b") == Ok([[], [], [98]])
  {
    hide Split, Decode, DecodeSegments;
    SplitPeel("", "%/b", '/');
    SplitPeel("%", "b", '/');
    SplitPeel("b", "", '/');
    assert "/%/b" == "" + "/" + "%/b";
    assert "%/b" == "%" + "/" + "b";
    DecodeUnfinished("", PCHAR, InPath);
    DecodeUnfinished("%", PCHAR, InPath);
    DecodePlainB();
    DecodeSegmentsOne("b");
    DecodeSegmentsCons("%", ["b"]);
    DecodeSegmentsCons("", ["%"] + ["b"]);
    assert Split("/%/b", '/') == [""] + (["%"] + ["b"]);
    assert [[]] + ([[]] + [[98]]) == [[], [], [98]];
  }

  lemma DecodePlainB()
    ensures Decode("b", PCHAR, InPath) == Ok([98])
  {
    DecodeToken(Plain('b'), "", PCHAR, InPath);
    assert TokenText(Plain('b')) + "" == "b";
    assert [98] + [] == [98];
  }

  /**
   Text with a scheme and no stray escape at the start of its path: printing the parsed URI and
   parsing again gives its canonical form, and further rounds change nothing.
   */
  lemma ParsePrintParse(s: string, u: Uri)
    ensures Parse(s) == Ok(u) && u.scheme.Some? && !StrayEscape(SplitUri(s)) ==>
              Parse(Print(u)) == Ok(Canon(u)) && Parse(Print(Canon(u))) == Ok(Canon(u))
  {
    hide Parse, Print, SplitUri, StrayEscape, HidesScheme, Canon;
    if Parse(s) == Ok(u) && u.scheme.Some? && !StrayEscape(SplitUri(s)) {
      ParsedPrintable(s, u);
      ParsePrint(u);
      CanonPrintable(u);
      CanonTwice(u);
      ParsePrint(Canon(u));
    }
  }

  /** Every escape in the path is complete. */
  predicate EscapesComplete(path: string) {
    forall i | 0 <= i < |Split(path, '/')| :: EscapeTail(Split(path, '/')[i]) == []
  }

  lemma EmptyUnlessStray(piece: string)
    ensures Unfinished(piece) && EscapeTail(piece) == [] ==> piece == []
  {
    DecodeUnfinished(piece, PCHAR, InPath);
  }

  /** Text that splits into two empty pieces and more starts with two slashes. */
  lemma TwoEmptyPieces(path: string)
    requires |Split(path, '/')| >= 2 && Split(path, '/')[0] == [] && Split(path, '/')[1] == []
    ensures path == "/" || (|Split(path, '/')| > 2 && "//" <= path)
  {
    hide Split;
    var pieces := Split(path, '/');
    JoinSplit(path, '/');
    var rest := pieces[1..];
    assert path == "/" + Join(rest, '/');
    if |pieces| > 2 {
      assert Join(rest, '/') == "/" + Join(rest[1..], '/');
      assert path[0] == '/' && path[1] == '/';
    } else {
      assert rest == [[]];
    }
  }

  /** No stray escape in text all of whose path escapes are complete. */
  lemma CompleteNotStray(s: string)
    requires EscapesComplete(SplitUri(s).path)
    ensures !StrayEscape(SplitUri(s))
  {
    hide SplitUri, Split, Unfinished, EscapeTail, SchemeOk, TailOk;
    RecomposeSplit(s);
    var p := SplitUri(s);
    var pieces := Split(p.path, '/');
    if |pieces| >= 2 {
      EmptyUnlessStray(pieces[0]);
      EmptyUnlessStray(pieces[1]);
      if pieces[0] == [] && pieces[1] == [] {
        TwoEmptyPieces(p.path);
      }
    }
  }

  /** The round trip of accepted text that a caller can rely on: a scheme, and complete escapes in the path. */
  lemma CompletePrintParse(s: string, u: Uri)
    ensures Parse(s) == Ok(u) && u.scheme.Some? && EscapesComplete(SplitUri(s).path) ==>
              Parse(Print(u)) == Ok(Canon(u)) && Parse(Print(Canon(u))) == Ok(Canon(u))
  {
    hide Parse, Print, SplitUri, StrayEscape, EscapesComplete, Canon;
    if EscapesComplete(SplitUri(s).path) {
      CompleteNotStray(s);
      ParsePrintParse(s, u);
    }
  }

  /** Accepted text is split as appendix B of RFC 3986 says, and its components rebuild it. */
  lemma AcceptedIsAppendixB(s: string)
    ensures Parse(s).Ok? ==>
              SplitUri(s) == AppendixB(s) && Recompose(SplitUri(s)) == s && Parse(s) == DecodeParts(AppendixB(s))
  {
    hide SplitUri, AppendixB, ParseAuthorityAndPath, ParseFragment, ParseQuery, ValidScheme, Lower, Recompose,
      DecodeParts;
    SplitIsAppendixB(s);
    RecomposeSplit(s);
    ParseIsSplitThenDecode(s);
    if Parse(s).Ok? && HasScheme(s) {
      ValidSchemeAvoids(s[..SchemeEnd(s)]);
    }
  }

  /**
   Text with a colon before its first slash and no valid scheme before the colon is rejected, also
   where appendix B sees no scheme: the relative references `?a:b` and `#a:b` are not accepted.
   */
  lemma BadSchemeRejected(s: string)
    requires HasScheme(s) && !ValidScheme(s[..SchemeEnd(s)])
    ensures Parse(s) == Err(if SchemeEnd(s) == 0 then EmptyScheme else IllegalCharacter(InScheme))
  {
    hide ParseAuthorityAndPath, ParseFragment, ParseQuery, ValidScheme;
  }

  lemma ColonInQueryExample()
    ensures Parse("?a:b") == Err(IllegalCharacter(InScheme)) && SplitUri("?a:b") != AppendixB("?a:b")
  {
    hide Parse, AppendixB, SplitUri;
    var s := "?a:b";
    FindAt(s, {'/'}, 4);
    FindAt(s[..4], {':'}, 2);
    assert SchemeEnd(s) == 2 && HasScheme(s);
    assert s[..2] == "?a" && s[..2][0] == '?';
    BadSchemeRejected(s);
    SplitIsAppendixB(s);
  }
}
