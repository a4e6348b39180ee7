/**
 The URI value, `Uri::parse` and `Display` (src/uri.rs).
 */
module Uris {
  import opened Errors
  import opened Sequences
  import opened CharacterClasses
  import opened PercentDecoder
  import opened Codec
  import opened Ascii
  import opened Authorities
  import opened Paths
  import opened Components

  datatype Uri = Uri(
    scheme: Option<string>,
    authority: Option<Authority>,
    path: Path,
    query: Option<bytes>,
    fragment: Option<bytes>)

  // ---- Parsing ----------------------------------------------------------------------------------

  predicate ValidScheme(s: string) {
    s != [] && s[0] in ALPHA && forall i | 1 <= i < |s| :: s[i] in SCHEME_NOT_FIRST
  }

  function CheckScheme(s: string): Result<string> {
    if s == [] then Err(EmptyScheme)
    else if ValidScheme(s) then Ok(s)
    else Err(IllegalCharacter(InScheme))
  }

  function ParseScheme(s: string): Result<(Option<string>, string)> {
    var slash := Find(s, {'/'});
    var colon := Find(s[..slash], {':'});
    if colon < slash then
      var scheme :- CheckScheme(s[..colon]);
      Ok((Some(Lower(scheme)), s[colon + 1..]))
    else Ok((None, s))
  }

  function ParseAuthorityAndPath(s: string): Result<(Option<Authority>, Path)> {
    if "//" <= s then
      var rest := s[2..];
      var authorityEnd := Find(rest, {'/'});
      var authority :- ParseAuthority(rest[..authorityEnd]);
      var pathString := rest[authorityEnd..];
      var path :- if pathString == [] then Ok([[]]) else ParsePath(pathString);
      Ok((Some(authority), path))
    else
      var path :- ParsePath(s);
      Ok((None, path))
  }

  /** The second result is what is left for the query. */
  function ParseFragment(s: string): (r: Result<(Option<bytes>, string)>)
    ensures r.Ok? ==> r.value.1 == s[..Find(s, {'#'})]
  {
    var delimiter := Find(s, {'#'});
    if delimiter < |s| then
      var fragment :- Decode(s[delimiter + 1..], QUERY_OR_FRAGMENT, InFragment);
      Ok((Some(fragment), s[..delimiter]))
    else Ok((None, s))
  }

  /** The first character is skipped unread. */
  function ParseQuery(s: string): Result<Option<bytes>>
    requires s == [] || s[0] == '?'
  {
    if s == [] then Ok(None)
    else
      var query :- Decode(s[1..], QUERY_OR_FRAGMENT, InQuery);
      Ok(Some(query))
  }

  function Parse(s: string): Result<Uri> {
    var (scheme, rest) :- ParseScheme(s);
    var pathEnd := Find(rest, {'?', '#'});
    var (authority, path) :- ParseAuthorityAndPath(rest[..pathEnd]);
    var (fragment, possibleQuery) :- ParseFragment(rest[pathEnd..]);
    var query :- ParseQuery(possibleQuery);
    Ok(Uri(scheme, authority, path, query, fragment))
  }

  // ---- Parsing is splitting, then decoding each component ---------------------------------------

  function DecodeScheme(scheme: Option<string>): Result<Option<string>> {
    if scheme.None? then Ok(None)
    else
      var valid :- CheckScheme(scheme.value);
      Ok(Some(Lower(valid)))
  }

  function DecodeAuthority(authority: Option<string>): Result<Option<Authority>> {
    if authority.None? then Ok(None)
    else
      var a :- ParseAuthority(authority.value);
      Ok(Some(a))
  }

  function DecodePath(hasAuthority: bool, path: string): Result<Path> {
    if hasAuthority && path == [] then Ok([[]]) else ParsePath(path)
  }

  function DecodeOption(part: Option<string>, context: Context): Result<Option<bytes>> {
    if part.None? then Ok(None)
    else
      var decoded :- Decode(part.value, QUERY_OR_FRAGMENT, context);
      Ok(Some(decoded))
  }

  function DecodeParts(p: Parts): Result<Uri> {
    var scheme :- DecodeScheme(p.scheme);
    var authority :- DecodeAuthority(p.authority);
    var path :- DecodePath(p.authority.Some?, p.path);
    var fragment :- DecodeOption(p.fragment, InFragment);
    var query :- DecodeOption(p.query, InQuery);
    Ok(Uri(scheme, authority, path, query, fragment))
  }

  lemma ParseSchemeStage(s: string)
    ensures ParseScheme(s) ==
            match DecodeScheme(SplitScheme(s).0)
            case Ok(scheme) => Ok((scheme, SplitScheme(s).1))
            case Err(e) => Err(e)
  {
  }

  lemma ParseHierStage(hier: string)
    ensures var (authority, path) := SplitHier(hier);
            ParseAuthorityAndPath(hier) ==
            match DecodeAuthority(authority)
            case Err(e) => Err(e)
            case Ok(a) =>
              match DecodePath(authority.Some?, path)
              case Err(e) => Err(e)
              case Ok(p) => Ok((a, p))
  {
  }

  lemma ParseTailStages(tail: string)
    requires tail == [] || tail[0] == '?' || tail[0] == '#'
    ensures var hash := Find(tail, {'#'});
            ParseQuery(tail[..hash]) == DecodeOption(SplitTail(tail).0, InQuery)
    ensures ParseFragment(tail) ==
            match DecodeOption(SplitTail(tail).1, InFragment)
            case Err(e) => Err(e)
            case Ok(f) => Ok((f, tail[..Find(tail, {'#'})]))
  {
    var hash := Find(tail, {'#'});
    assert hash > 0 ==> tail[..hash][1..] == tail[1..hash];
    Empty(tail);
  }

  /** The staged parser decodes the components of the split, in the order scheme, authority, path, fragment, query. */
  lemma ParseIsSplitThenDecode(s: string)
    ensures Parse(s) == DecodeParts(SplitUri(s))
  {
    hide ParseScheme, ParseAuthorityAndPath, ParseFragment, ParseQuery, SplitScheme, SplitHier, SplitTail,
      DecodeScheme, DecodeAuthority, DecodePath, DecodeOption;
    ParseSchemeStage(s);
    var (scheme, rest) := SplitScheme(s);
    var pathEnd := Find(rest, {'?', '#'});
    ParseHierStage(rest[..pathEnd]);
    ParseTailStages(rest[pathEnd..]);
  }

  // ---- Printing ---------------------------------------------------------------------------------

  /** The components as `Display` writes them. */
  function ToParts(u: Uri): Parts {
    Parts(
      u.scheme,
      if u.authority.Some? then Some(PrintAuthority(u.authority.value)) else None,
      PathText(u.path),
      if u.query.Some? then Some(Encode(u.query.value, QUERY_WITHOUT_PLUS)) else None,
      if u.fragment.Some? then Some(Encode(u.fragment.value, QUERY_OR_FRAGMENT)) else None)
  }

  function Print(u: Uri): string {
    Recompose(ToParts(u))
  }

  /** `Display::fmt`. */
  method Display(u: Uri) returns (f: string)
    ensures f == Print(u)
  {
    hide PathText, PrintAuthority, Encode;
    var scheme, authority, query, fragment := [], [], [], [];
    if u.scheme.Some? {
      scheme := u.scheme.value + ":";
    }
    f := scheme;
    if u.authority.Some? {
      authority := Authorities.Display(u.authority.value);
      authority := "//" + authority;
    }
    f := f + authority;
    var path := DisplayPath(u.path);
    f := f + path;
    if u.query.Some? {
      query := EncodeElement(u.query.value, QUERY_WITHOUT_PLUS);
      query := "?" + query;
    }
    f := f + query;
    if u.fragment.Some? {
      fragment := EncodeElement(u.fragment.value, QUERY_OR_FRAGMENT);
      fragment := "#" + fragment;
    }
    f := f + fragment;
    Assoc(scheme, authority, path);
    Assoc(scheme, authority + path, query);
    Assoc(scheme, authority + path + query, fragment);
    Assoc(authority + path, query, fragment);
  }
}
