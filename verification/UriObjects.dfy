/**
 The `Uri` struct as an object whose methods update its fields (src/uri.rs).
 */
module UriObjects {
  import opened Errors
  import opened Sequences
  import opened PercentDecoder
  import opened Codec
  import opened Authorities
  import opened Paths
  import opened Uris
  import opened RoundTrips
  import opened Resolution

  /** `set_path_from_str` on the bytes of the string: split at every slash. */
  function PathFromString(s: bytes): Path {
    if s == [] then [] else Split(s, SLASH)
  }

  /** The bytes of `path_to_string`, before they are checked to be UTF-8. */
  function PathToString(path: Path): bytes {
    if path == [[]] then [SLASH] else Join(path, SLASH)
  }

  /** `path_to_string` gives back every string a path was set from. */
  lemma PathStringRoundTrip(s: bytes)
    ensures PathToString(PathFromString(s)) == s
  {
    JoinSplit(s, SLASH);
  }

  /** The string of a path: a slash for the lone root, a segment alone, and slashes between segments. */
  lemma PathToStringIs(a: Path, b: Path)
    requires a != [] && b != []
    ensures PathToString([]) == [] && PathToString([[]]) == [47]
    ensures a[0] != [] ==> PathToString([a[0]]) == a[0]
    ensures PathToString(a + b) == Join(a, SLASH) + [47] + Join(b, SLASH)
  {
    JoinConcat(a, b, SLASH);
    assert |a + b| >= 2;
  }

  lemma JoinEmpty(path: Path)
    requires path != []
    ensures Join(path, SLASH) == [] <==> path == [[]]
  {
    assert |path| == 1 ==> path == [path[0]];
  }

  /**
   The other way round fails for a segment that contains a slash, and for `[""]`, whose string `/` is
   read as `["", ""]`, unlike the path `/` of parsed text.
   */
  lemma PathFromStringRoundTrip(path: Path)
    ensures PathFromString(PathToString(path)) == path <==>
            path != [[]] && forall i | 0 <= i < |path| :: Avoids(path[i], {SLASH})
  {
    var s := PathToString(path);
    SplitAvoids(s, SLASH);
    if path == [[]] {
      SplitPeel([], [], SLASH);
      assert [] + [SLASH] + [] == [SLASH];
    } else if path != [] {
      JoinEmpty(path);
      if forall i | 0 <= i < |path| :: Avoids(path[i], {SLASH}) {
        SplitJoin(path, SLASH);
      }
    }
  }

  class MutableUri {
    var scheme: Option<string>
    var authority: Option<Authority>
    var path: Path
    var query: Option<bytes>
    var fragment: Option<bytes>

    function Value(): Uri
      reads this
    {
      Uri(scheme, authority, path, query, fragment)
    }

    /** The scheme is always one that `check_scheme` lets through. */
    ghost predicate Valid()
      reads this
    {
      scheme.Some? ==> ValidScheme(scheme.value)
    }

    /** `Uri::default`. */
    constructor ()
      ensures Valid() && Value() == Uri(None, None, [], None, None)
    {
      scheme, authority, path, query, fragment := None, None, [], None, None;
    }

    constructor FromValue(u: Uri)
      requires u.scheme.Some? ==> ValidScheme(u.scheme.value)
      ensures Valid() && Value() == u
    {
      scheme, authority, path, query, fragment := u.scheme, u.authority, u.path, u.query, u.fragment;
    }

    /** Replaces the path by its normal form and leaves the rest alone; doing it again changes nothing. */
    method Normalize()
      requires Valid()
      modifies this`path
      ensures Valid() && Value() == old(Value()).(path := Paths.Normalize(old(path)))
      ensures IsNormal(path) && (IsAbsolute(path) <==> IsAbsolute(old(path))) && |path| <= |old(path)|
    {
      NormalizeResult(path);
      path := NormalizePath(path);
    }

    /** Rejects an invalid scheme and then changes nothing. */
    method SetScheme(newScheme: Option<string>) returns (r: Result<()>)
      requires Valid()
      modifies this`scheme
      ensures Valid()
      ensures r.Ok? <==> newScheme.None? || ValidScheme(newScheme.value)
      ensures Value() == old(Value()).(scheme := if r.Ok? then newScheme else old(scheme))
      ensures newScheme == Some([]) ==> r == Err(EmptyScheme)
      ensures r.Err? && newScheme != Some([]) ==> r == Err(IllegalCharacter(InScheme))
    {
      if newScheme.Some? {
        var checked := CheckScheme(newScheme.value);
        if checked.Err? {
          return Err(checked.error);
        }
      }
      scheme := newScheme;
      return Ok(());
    }

    method SetPathFromString(s: bytes)
      requires Valid()
      modifies this`path
      ensures Valid() && Value() == old(Value()).(path := PathFromString(s))
      ensures PathToString(path) == s
    {
      PathStringRoundTrip(s);
      path := PathFromString(s);
    }

    /** The printed form; since the scheme is valid, only the other components decide whether it parses back. */
    method ToText() returns (f: string)
      requires Valid()
      ensures f == Print(Value())
      ensures Parse(f) == Ok(Canon(Value())) <==> ReadsBack(Value())
    {
      RoundTrip(Value());
      f := Uris.Display(Value());
    }
  }

  /** `Uri::parse`, as an object: a valid one exactly if the text is accepted. */
  method ParseUri(text: string) returns (r: Result<MutableUri>)
    ensures r.Ok? ==> fresh(r.value) && r.value.Valid() && Parse(text) == Ok(r.value.Value())
    ensures r.Err? ==> Parse(text) == Err(r.error)
  {
    hide Parse;
    var parsed := Parse(text);
    if parsed.Err? {
      return Err(parsed.error);
    }
    ParsedWellFormed(text, parsed.value);
    var u := new MutableUri.FromValue(parsed.value);
    return Ok(u);
  }
}
