/**
 Which error `Uri::parse` gives for text it does not accept.
 */
module Rejections {
  import opened Errors
  import opened Sequences
  import opened CharacterClasses
  import opened PercentDecoder
  import opened Codec
  import opened Authorities
  import opened Paths
  import opened Components
  import opened Uris
  import opened RoundTrips
  import HostPort

  // ---- Elements ---------------------------------------------------------------------------------

  /** What is wrong with text that cannot go on like this: an escape without digits, or a character out of place. */
  predicate StartsWrong(rest: string, allowed: set<char>, context: Context, e: Error) {
    && rest != []
    && if rest[0] == '%' then
         && |rest| >= 2
         && (rest[1] !in HEXDIG || (|rest| >= 3 && rest[2] !in HEXDIG))
         && e == IllegalPercentEncoding
       else rest[0] !in allowed && e == IllegalCharacter(context)
  }

  /** Allowed characters and complete escapes, and then the first fault. */
  ghost predicate FaultAfter(s: string, allowed: set<char>, context: Context, e: Error, ts: seq<Token>, rest: string) {
    TokensAllowed(ts, allowed) && s == Render(ts) + rest && StartsWrong(rest, allowed, context, e)
  }

  ghost predicate ElementFault(s: string, allowed: set<char>, context: Context, e: Error) {
    exists ts, rest :: FaultAfter(s, allowed, context, e, ts, rest)
  }

  lemma {:induction false} FaultRejected(ts: seq<Token>, rest: string, allowed: set<char>, context: Context, e: Error)
    requires TokensAllowed(ts, allowed) && StartsWrong(rest, allowed, context, e)
    ensures Decode(Render(ts) + rest, allowed, context) == Err(e)
  {
    hide TokenText, TokenByte, TokenAllowed;
    if ts == [] {
      Empty(rest);
    } else {
      hide Decode;
      FaultRejected(ts[1..], rest, allowed, context, e);
      Assoc(TokenText(ts[0]), Render(ts[1..]), rest);
      DecodeToken(ts[0], Render(ts[1..]) + rest, allowed, context);
    }
  }

  lemma RejectedFirst(s: string, allowed: set<char>, context: Context) returns (t: Token, rest: string)
    requires Decode(s, allowed, context).Err?
    requires !StartsWrong(s, allowed, context, Decode(s, allowed, context).error)
    ensures |rest| < |s| && s == TokenText(t) + rest && TokenAllowed(t, allowed)
    ensures Decode(rest, allowed, context) == Decode(s, allowed, context)
  {
    if s[0] == '%' {
      t, rest := Escape(s[1], s[2]), s[3..];
    } else {
      t, rest := Plain(s[0]), s[1..];
    }
  }

  lemma {:induction false} RejectedFault(s: string, allowed: set<char>, context: Context)
    returns (ts: seq<Token>, rest: string)
    requires Decode(s, allowed, context).Err?
    ensures FaultAfter(s, allowed, context, Decode(s, allowed, context).error, ts, rest)
    decreases |s|
  {
    hide Decode, StartsWrong, TokenText, TokenAllowed;
    if StartsWrong(s, allowed, context, Decode(s, allowed, context).error) {
      ts, rest := [], s;
      Empty(s);
    } else {
      var t, s' := RejectedFirst(s, allowed, context);
      var ts';
      ts', rest := RejectedFault(s', allowed, context);
      ts := [t] + ts';
      HeadTail(t, ts');
      Assoc(TokenText(t), Render(ts'), rest);
    }
  }

  /** `decode_element` fails with the first fault from the left. */
  lemma DecodeRejects(s: string, allowed: set<char>, context: Context, e: Error)
    ensures Decode(s, allowed, context) == Err(e) <==> ElementFault(s, allowed, context, e)
  {
    hide Decode;
    if Decode(s, allowed, context) == Err(e) {
      var ts, rest := RejectedFault(s, allowed, context);
    }
    if ts, rest :| FaultAfter(s, allowed, context, e, ts, rest) {
      FaultRejected(ts, rest, allowed, context, e);
    }
  }

  /** The element spells some bytes. */
  ghost predicate Readable(s: string, allowed: set<char>) {
    exists b :: ElementText(s, allowed, b)
  }

  // ---- Authorities ------------------------------------------------------------------------------

  /** A fault in the userinfo, or else in host and port. */
  ghost predicate AuthorityFault(a: string, e: Error) {
    var d := Find(a, {'@'});
    if d == |a| then HostPort.Parse(a) == Err(e)
    else
      || ElementFault(a[..d], USER_INFO, InUserinfo, e)
      || (Readable(a[..d], USER_INFO) && HostPort.Parse(a[d + 1..]) == Err(e))
  }

  lemma ReadableDecodes(s: string, allowed: set<char>, context: Context)
    ensures Decode(s, allowed, context).Ok? <==> Readable(s, allowed)
  {
    hide Decode, ElementText;
    if Decode(s, allowed, context).Ok? {
      DecodeAccepts(s, allowed, context, Decode(s, allowed, context).value);
    }
    if b :| ElementText(s, allowed, b) {
      DecodeAccepts(s, allowed, context, b);
    }
  }

  lemma AuthorityRejects(a: string, e: Error)
    ensures ParseAuthority(a) == Err(e) <==> AuthorityFault(a, e)
  {
    hide Decode, Readable, ElementFault, HostPort.Parse;
    var d := Find(a, {'@'});
    DecodeRejects(a[..d], USER_INFO, InUserinfo, e);
    ReadableDecodes(a[..d], USER_INFO, InUserinfo);
  }

  // ---- Paths ------------------------------------------------------------------------------------

  /** The first piece with a fault. */
  ghost predicate PieceFault(pieces: seq<string>, i: nat, e: Error) {
    && i < |pieces| && ElementFault(pieces[i], PCHAR, InPath, e)
    && forall j | 0 <= j < i :: Readable(pieces[j], PCHAR)
  }

  ghost predicate PathFault(path: string, e: Error) {
    path != "" && path != "/" && exists i: nat :: PieceFault(Split(path, '/'), i, e)
  }

  lemma PieceFaultCons(pieces: seq<string>, i: nat, e: Error)
    requires pieces != []
    ensures PieceFault(pieces, i + 1, e) <==> Readable(pieces[0], PCHAR) && PieceFault(pieces[1..], i, e)
  {
    hide Readable, ElementFault;
    var rest := pieces[1..];
    assert forall j | 0 <= j < |rest| :: rest[j] == pieces[j + 1];
    if PieceFault(rest, i, e) && Readable(pieces[0], PCHAR) {
      forall j | 0 <= j < i + 1
        ensures Readable(pieces[j], PCHAR)
      {
        if j > 0 {
          assert pieces[j] == rest[j - 1];
        }
      }
    }
    if PieceFault(pieces, i + 1, e) {
      assert pieces[i + 1] == rest[i];
      assert Readable(pieces[0], PCHAR);
    }
  }

  lemma {:induction false} SegmentsReject(pieces: seq<string>, e: Error)
    ensures DecodeSegments(pieces) == Err(e) <==> exists i: nat :: PieceFault(pieces, i, e)
    decreases |pieces|
  {
    hide Decode, Readable, ElementFault;
    if pieces != [] {
      hide PieceFault;
      DecodeRejects(pieces[0], PCHAR, InPath, e);
      ReadableDecodes(pieces[0], PCHAR, InPath);
      SegmentsReject(pieces[1..], e);
      FirstPieceFault(pieces, e);
      if i: nat :| PieceFault(pieces, i, e) {
        if i > 0 {
          PieceFaultCons(pieces, i - 1, e);
        }
      }
      if i: nat :| PieceFault(pieces[1..], i, e) {
        PieceFaultCons(pieces, i, e);
      }
    }
  }

  lemma FirstPieceFault(pieces: seq<string>, e: Error)
    requires pieces != []
    ensures PieceFault(pieces, 0, e) <==> ElementFault(pieces[0], PCHAR, InPath, e)
  {
  }

  lemma PathRejects(hasAuthority: bool, path: string, e: Error)
    ensures DecodePath(hasAuthority, path) == Err(e) <==> PathFault(path, e)
  {
    hide DecodeSegments, PieceFault, Split;
    SegmentsReject(Split(path, '/'), e);
  }

  // ---- The whole text ---------------------------------------------------------------------------

  ghost predicate OptionFault(part: Option<string>, context: Context, e: Error) {
    part.Some? && ElementFault(part.value, QUERY_OR_FRAGMENT, context, e)
  }

  predicate SchemeFault(scheme: Option<string>, e: Error) {
    && scheme.Some? && !ValidScheme(scheme.value)
    && e == if scheme.value == [] then EmptyScheme else IllegalCharacter(InScheme)
  }

  ghost predicate NoFault(p: Parts, stages: nat) {
    && (stages > 0 ==> p.scheme.Some? ==> ValidScheme(p.scheme.value))
    && (stages > 1 ==> p.authority.Some? ==> ParseAuthority(p.authority.value).Ok?)
    && (stages > 2 ==> forall e :: !PathFault(p.path, e))
    && (stages > 3 ==> forall e :: !OptionFault(p.fragment, InFragment, e))
  }

  /** The first fault, in the order scheme, authority, path, fragment, query. */
  ghost predicate UriFault(p: Parts, e: Error) {
    || SchemeFault(p.scheme, e)
    || (NoFault(p, 1) && p.authority.Some? && AuthorityFault(p.authority.value, e))
    || (NoFault(p, 2) && PathFault(p.path, e))
    || (NoFault(p, 3) && OptionFault(p.fragment, InFragment, e))
    || (NoFault(p, 4) && OptionFault(p.query, InQuery, e))
  }

  lemma OptionRejects(part: Option<string>, context: Context, e: Error)
    ensures DecodeOption(part, context) == Err(e) <==> OptionFault(part, context, e)
  {
    hide Decode, ElementFault;
    if part.Some? {
      DecodeRejects(part.value, QUERY_OR_FRAGMENT, context, e);
    }
  }

  lemma FaultFree(p: Parts)
    ensures DecodePath(p.authority.Some?, p.path).Ok? <==> forall e :: !PathFault(p.path, e)
    ensures DecodeOption(p.fragment, InFragment).Ok? <==> forall e :: !OptionFault(p.fragment, InFragment, e)
  {
    hide DecodePath, PathFault, DecodeOption, OptionFault;
    forall e
      ensures DecodePath(p.authority.Some?, p.path) == Err(e) <==> PathFault(p.path, e)
      ensures DecodeOption(p.fragment, InFragment) == Err(e) <==> OptionFault(p.fragment, InFragment, e)
    {
      PathRejects(p.authority.Some?, p.path, e);
      OptionRejects(p.fragment, InFragment, e);
    }
    var path, fragment := DecodePath(p.authority.Some?, p.path), DecodeOption(p.fragment, InFragment);
    if path.Err? {
      assert PathFault(p.path, path.error);
    }
    if fragment.Err? {
      assert OptionFault(p.fragment, InFragment, fragment.error);
    }
  }

  lemma PartsReject(p: Parts, e: Error)
    ensures DecodeParts(p) == Err(e) <==> UriFault(p, e)
  {
    hide DecodePath, PathFault, DecodeOption, OptionFault, ValidScheme, ParseAuthority, AuthorityFault;
    FaultFree(p);
    if p.authority.Some? {
      AuthorityRejects(p.authority.value, e);
    }
    PathRejects(p.authority.Some?, p.path, e);
    OptionRejects(p.fragment, InFragment, e);
    OptionRejects(p.query, InQuery, e);
    if p.scheme.Some? && ValidScheme(p.scheme.value) {
      ValidSchemeNotEmpty(p.scheme.value);
    }
  }

  /** `Uri::parse` fails with the first fault of the components the text splits into. */
  lemma ParseRejects(s: string, e: Error)
    ensures Parse(s) == Err(e) <==> UriFault(SplitUri(s), e)
  {
    hide Parse, SplitUri, UriFault, DecodeParts;
    ParseIsSplitThenDecode(s);
    PartsReject(SplitUri(s), e);
  }
}
