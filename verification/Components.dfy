/**
 Splitting a URI text into its raw components in the stages of `Uri::parse`, recomposing it
 (section 5.3 of RFC 3986), and the regular expression of appendix B of RFC 3986.
 */
module Components {
  import opened Errors
  import opened Sequences

  /** The five components as text, still percent-encoded. */
  datatype Parts = Parts(
    scheme: Option<string>,
    authority: Option<string>,
    path: string,
    query: Option<string>,
    fragment: Option<string>)

  // ---- Section 5.3 ------------------------------------------------------------------------------

  function SchemeText(scheme: Option<string>): string {
    if scheme.Some? then scheme.value + ":" else []
  }

  function HierText(authority: Option<string>, path: string): string {
    (if authority.Some? then "//" + authority.value else []) + path
  }

  function TailText(query: Option<string>, fragment: Option<string>): string {
    (if query.Some? then "?" + query.value else []) + (if fragment.Some? then "#" + fragment.value else [])
  }

  function AfterScheme(p: Parts): string {
    HierText(p.authority, p.path) + TailText(p.query, p.fragment)
  }

  function Recompose(p: Parts): string {
    SchemeText(p.scheme) + AfterScheme(p)
  }

  // ---- The stages of Uri::parse -----------------------------------------------------------------

  /** Where the first slash stops the search for a scheme. */
  function SchemeEnd(s: string): (i: nat)
    ensures i <= Find(s, {'/'}) <= |s|
  {
    Find(s[..Find(s, {'/'})], {':'})
  }

  /** There is a colon before the first slash. */
  predicate HasScheme(s: string) {
    SchemeEnd(s) < Find(s, {'/'})
  }

  function SplitScheme(s: string): (Option<string>, string) {
    if HasScheme(s) then (Some(s[..SchemeEnd(s)]), s[SchemeEnd(s) + 1..]) else (None, s)
  }

  function SplitHier(hier: string): (Option<string>, string) {
    if "//" <= hier then
      var e := Find(hier[2..], {'/'});
      (Some(hier[2..][..e]), hier[2..][e..])
    else (None, hier)
  }

  function SplitTail(tail: string): (Option<string>, Option<string>) {
    var hash := Find(tail, {'#'});
    (if hash == 0 then None else Some(tail[1..hash]),
     if hash < |tail| then Some(tail[hash + 1..]) else None)
  }

  function SplitUri(s: string): Parts {
    var (scheme, rest) := SplitScheme(s);
    var pathEnd := Find(rest, {'?', '#'});
    var (authority, path) := SplitHier(rest[..pathEnd]);
    var (query, fragment) := SplitTail(rest[pathEnd..]);
    Parts(scheme, authority, path, query, fragment)
  }

  // ---- Which components a split can give --------------------------------------------------------

  ghost predicate HierOk(authority: Option<string>, path: string) {
    && Avoids(path, {'?', '#'})
    && (authority.Some? ==> Avoids(authority.value, {'/', '?', '#'}) && (path == [] || path[0] == '/'))
    && (authority.None? ==> !("//" <= path))
  }

  ghost predicate TailOk(query: Option<string>) {
    query.Some? ==> Avoids(query.value, {'#'})
  }

  ghost predicate SchemeOk(scheme: Option<string>, rest: string) {
    if scheme.Some? then Avoids(scheme.value, {'/', ':'}) else !HasScheme(rest)
  }

  ghost predicate PartsOk(p: Parts) {
    HierOk(p.authority, p.path) && TailOk(p.query) && SchemeOk(p.scheme, AfterScheme(p))
  }

  lemma SplitSchemeText(scheme: Option<string>, rest: string)
    requires SchemeOk(scheme, rest)
    ensures SplitScheme(SchemeText(scheme) + rest) == (scheme, rest)
  {
    if scheme.Some? {
      var x := scheme.value;
      var s := x + ":" + rest;
      var slash := Find(s, {'/'});
      assert s[|x|] == ':';
      assert slash > |x| by {
        assert forall i | 0 <= i < |x| :: s[i] == x[i];
      }
      assert s[..slash][..|x|] == x;
      FindAt(s[..slash], {':'}, |x|);
      DropPrefix(x + ":", rest);
      DropPrefix(x, ":" + rest);
      Assoc(x, ":", rest);
    } else {
      Empty(rest);
    }
  }

  lemma SplitSchemeOk(s: string)
    ensures var (scheme, rest) := SplitScheme(s);
            SchemeOk(scheme, rest) && SchemeText(scheme) + rest == s
  {
    if HasScheme(s) {
      var slash, end := Find(s, {'/'}), SchemeEnd(s);
      assert s[..slash][..end] == s[..end];
      assert forall i | 0 <= i < end :: s[..end][i] == s[..slash][i];
      CutAt(s, end);
    } else {
      Empty(s);
    }
  }

  lemma SplitHierText(authority: Option<string>, path: string)
    requires HierOk(authority, path)
    ensures SplitHier(HierText(authority, path)) == (authority, path)
  {
    if authority.Some? {
      var a := authority.value;
      var hier := "//" + a + path;
      Assoc("//", a, path);
      DropPrefix("//", a + path);
      FindConcat(a, path, {'/'});
    } else {
      Empty(path);
    }
  }

  lemma SplitHierOk(hier: string)
    requires Avoids(hier, {'?', '#'})
    ensures var (authority, path) := SplitHier(hier);
            HierOk(authority, path) && HierText(authority, path) == hier
  {
    if "//" <= hier {
      var after := hier[2..];
      var e := Find(after, {'/'});
      assert hier == "//" + after;
      assert after == after[..e] + after[e..];
      Assoc("//", after[..e], after[e..]);
    } else {
      Empty(hier);
    }
  }

  lemma SplitTailText(query: Option<string>, fragment: Option<string>)
    requires TailOk(query)
    ensures SplitTail(TailText(query, fragment)) == (query, fragment)
  {
    hide Find;
    var q := if query.Some? then "?" + query.value else [];
    var f := if fragment.Some? then "#" + fragment.value else [];
    FindConcat(q, f, {'#'});
    assert query.Some? ==> (q + f)[1..|q|] == query.value;
    assert fragment.Some? ==> (q + f)[|q| + 1..] == fragment.value;
  }

  /** The tail handed to the query and fragment stages is empty or starts with `?` or `#`. */
  lemma SplitTailOk(tail: string)
    requires tail == [] || tail[0] == '?' || tail[0] == '#'
    ensures var (query, fragment) := SplitTail(tail);
            TailOk(query) && TailText(query, fragment) == tail
  {
    var hash := Find(tail, {'#'});
    assert tail == tail[..hash] + tail[hash..];
    if hash > 0 {
      assert tail[..hash] == "?" + tail[1..hash];
      assert forall i | 1 <= i < hash :: tail[1..hash][i - 1] == tail[..hash][i];
    }
    if hash < |tail| {
      assert tail[hash..] == "#" + tail[hash + 1..];
    }
  }

  lemma HierAvoids(authority: Option<string>, path: string)
    requires HierOk(authority, path)
    ensures Avoids(HierText(authority, path), {'?', '#'})
  {
  }

  lemma TailStart(query: Option<string>, fragment: Option<string>)
    ensures var t := TailText(query, fragment); t == [] || t[0] in {'?', '#'}
  {
  }

  /** Splitting undoes recomposing. */
  lemma SplitRecompose(p: Parts)
    requires PartsOk(p)
    ensures SplitUri(Recompose(p)) == p
  {
    hide SplitScheme, SplitHier, SplitTail, HierText, TailText;
    var hier, tail := HierText(p.authority, p.path), TailText(p.query, p.fragment);
    SplitSchemeText(p.scheme, AfterScheme(p));
    HierAvoids(p.authority, p.path);
    TailStart(p.query, p.fragment);
    FindConcat(hier, tail, {'?', '#'});
    SplitHierText(p.authority, p.path);
    SplitTailText(p.query, p.fragment);
  }

  /** Recomposing the raw components of any text rebuilds it exactly. */
  lemma RecomposeSplit(s: string)
    ensures Recompose(SplitUri(s)) == s
    ensures PartsOk(SplitUri(s))
  {
    hide SplitScheme, SplitHier, SplitTail, HierText, TailText;
    var (scheme, rest) := SplitScheme(s);
    SplitSchemeOk(s);
    var pathEnd := Find(rest, {'?', '#'});
    SplitHierOk(rest[..pathEnd]);
    SplitTailOk(rest[pathEnd..]);
    assert rest == rest[..pathEnd] + rest[pathEnd..];
  }

  // ---- Appendix B -------------------------------------------------------------------------------

  /** `(//([^/?#]*))?([^?#]*)(\?([^#]*))?(#(.*))?`, group by group. */
  function AfterSchemeB(s1: string): (Option<string>, string, Option<string>, Option<string>) {
    var hasAuthority := "//" <= s1;
    var a := if hasAuthority then Find(s1[2..], {'/', '?', '#'}) else 0;
    var authority := if hasAuthority then Some(s1[2..][..a]) else None;
    var s2 := if hasAuthority then s1[2..][a..] else s1;
    var p := Find(s2, {'?', '#'});
    var s3 := s2[p..];
    var hasQuery := s3 != [] && s3[0] == '?';
    var q := if hasQuery then Find(s3[1..], {'#'}) else 0;
    var query := if hasQuery then Some(s3[1..][..q]) else None;
    var s4 := if hasQuery then s3[1..][q..] else s3;
    var fragment := if s4 != [] && s4[0] == '#' then Some(s4[1..]) else None;
    (authority, s2[..p], query, fragment)
  }

  /** The regular expression of appendix B: `^(([^:/?#]+):)?` and then the groups above. */
  function AppendixB(s: string): Parts {
    var k := Find(s, {':', '/', '?', '#'});
    var hasScheme := 0 < k < |s| && s[k] == ':';
    var (authority, path, query, fragment) := AfterSchemeB(if hasScheme then s[k + 1..] else s);
    Parts(if hasScheme then Some(s[..k]) else None, authority, path, query, fragment)
  }

  lemma AppendixBTail(s3: string)
    requires s3 == [] || s3[0] == '?' || s3[0] == '#'
    ensures var hasQuery := s3 != [] && s3[0] == '?';
            var q := if hasQuery then Find(s3[1..], {'#'}) else 0;
            var s4 := if hasQuery then s3[1..][q..] else s3;
            SplitTail(s3) ==
            (if hasQuery then Some(s3[1..][..q]) else None, if s4 != [] && s4[0] == '#' then Some(s4[1..]) else None)
  {
    if s3 != [] && s3[0] == '?' {
      var q := Find(s3[1..], {'#'});
      assert s3[..q + 1] == "?" + s3[1..][..q];
      FindAt(s3, {'#'}, q + 1);
    }
  }

  lemma AppendixBHier(s1: string)
    ensures var pathEnd := Find(s1, {'?', '#'});
            var hasAuthority := "//" <= s1;
            var a := if hasAuthority then Find(s1[2..], {'/', '?', '#'}) else 0;
            var s2 := if hasAuthority then s1[2..][a..] else s1;
            var p := Find(s2, {'?', '#'});
            && SplitHier(s1[..pathEnd]) == (if hasAuthority then Some(s1[2..][..a]) else None, s2[..p])
            && s2[p..] == s1[pathEnd..]
  {
    var pathEnd := Find(s1, {'?', '#'});
    var hier, tail := s1[..pathEnd], s1[pathEnd..];
    assert s1 == hier + tail;
    if "//" <= s1 {
      assert s1[0] == '/' && s1[1] == '/';
      assert pathEnd >= 2;
      assert hier[0] == '/' && hier[1] == '/';
      var after := hier[2..];
      assert s1[2..] == after + tail;
      AppendixBAuthority(after, tail);
    } else {
      DoubleSlashMeans(hier);
      DoubleSlashMeans(s1);
    }
  }

  lemma DoubleSlashMeans(s: string)
    ensures "//" <= s <==> |s| >= 2 && s[0] == '/' && s[1] == '/'
  {
  }

  lemma AppendixBAuthority(after: string, tail: string)
    requires Avoids(after, {'?', '#'}) && (tail == [] || tail[0] in {'?', '#'})
    ensures var e := Find(after, {'/'});
            && Find(after + tail, {'/', '?', '#'}) == e
            && (after + tail)[..e] == after[..e]
            && (after + tail)[e..] == after[e..] + tail
            && Find(after[e..] + tail, {'?', '#'}) == |after| - e
            && (after[e..] + tail)[..|after| - e] == after[e..]
            && (after[e..] + tail)[|after| - e..] == tail
  {
    hide Find;
    var e := Find(after, {'/'});
    var a, b := after[..e], after[e..];
    assert after == a + b;
    Assoc(a, b, tail);
    assert forall i | 0 <= i < e :: a[i] == after[i];
    FindConcat(a, b + tail, {'/', '?', '#'});
    FindConcat(b, tail, {'?', '#'});
  }

  /**
   The only stage that can differ from appendix B is the first: a colon before the first slash is
   taken as the end of a scheme even if the scheme would be empty or contain `?` or `#`.
   */
  lemma SplitIsAppendixB(s: string)
    ensures SplitUri(s) == AppendixB(s) <==>
            (HasScheme(s) ==> SchemeEnd(s) > 0 && Avoids(s[..SchemeEnd(s)], {'?', '#'}))
  {
    hide SplitHier, SplitTail, Find, SchemeEnd, HasScheme;
    SchemeStage(s);
    var (scheme, rest) := SplitScheme(s);
    AppendixBRest(rest);
  }

  /** From the second group on, the stages are those of appendix B. */
  lemma AppendixBRest(s1: string)
    ensures var pathEnd := Find(s1, {'?', '#'});
            var (authority, path) := SplitHier(s1[..pathEnd]);
            var (query, fragment) := SplitTail(s1[pathEnd..]);
            AfterSchemeB(s1) == (authority, path, query, fragment)
  {
    hide SplitHier, SplitTail, Find;
    AppendixBHier(s1);
    AppendixBTail(s1[Find(s1, {'?', '#'})..]);
  }

  lemma SchemeEndFacts(s: string)
    ensures var slash, end := Find(s, {'/'}), SchemeEnd(s);
            && (forall j | 0 <= j < end :: s[j] != '/' && s[j] != ':')
            && (HasScheme(s) ==> s[end] == ':')
            && (!HasScheme(s) ==> end == slash && (slash < |s| ==> s[slash] == '/'))
  {
    var slash, end := Find(s, {'/'}), SchemeEnd(s);
    var t := s[..slash];
    assert forall j | 0 <= j < slash :: t[j] == s[j];
    assert forall j | 0 <= j < end :: t[..end][j] == s[j];
  }

  lemma HasSchemeMeans(s: string)
    ensures HasScheme(s) <==> Before(s, ':', '/')
  {
    hide SchemeEnd;
    SchemeEndFacts(s);
    BeforeAt(s, ':', '/', SchemeEnd(s));
  }

  lemma FindBefore(s: string, ds: set<char>, j: nat)
    requires j < |s| && s[j] in ds
    ensures Find(s, ds) <= j
  {
  }

  lemma SchemeStage(s: string)
    ensures var k := Find(s, {':', '/', '?', '#'});
            if HasScheme(s) && SchemeEnd(s) > 0 && Avoids(s[..SchemeEnd(s)], {'?', '#'})
            then k == SchemeEnd(s) && k < |s| && s[k] == ':'
            else !(0 < k < |s| && s[k] == ':')
  {
    hide Find, SchemeEnd;
    SchemeEndFacts(s);
    var end := SchemeEnd(s);
    var ds := {':', '/', '?', '#'};
    if HasScheme(s) && Avoids(s[..end], {'?', '#'}) {
      assert Avoids(s[..end], ds) by {
        assert forall j | 0 <= j < end :: s[..end][j] == s[j];
      }
      FindAt(s, ds, end);
    } else if HasScheme(s) {
      var i :| 0 <= i < end && s[..end][i] in {'?', '#'};
      assert s[i] == s[..end][i];
      FindBefore(s, ds, i);
    } else if Find(s, {'/'}) < |s| {
      FindBefore(s, ds, Find(s, {'/'}));
    }
  }
}
