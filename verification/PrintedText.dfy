/**
 The printed form of a URI character by character, and the host a name is read as.
 */
module PrintedText {
  import opened Errors
  import opened Sequences
  import opened CharacterClasses
  import opened PercentDecoder
  import opened Codec
  import opened Ascii
  import opened Literals
  import opened Authorities
  import opened Paths
  import opened Components
  import opened Uris
  import Decimal
  import HostPort
  import Ipv6

  // ---- Printing ---------------------------------------------------------------------------------

  ghost predicate Ipv6Text(host: bytes, a: string) {
    Ipv6.Address(a) && IsAscii(a) && host == ToBytes(a)
  }

  /** The bytes spell an IPv6 address. */
  ghost predicate SpellsIpv6(host: bytes) {
    exists a :: Ipv6Text(host, a)
  }

  ghost function AuthorityPrinted(v: Authority): string {
    (if v.userinfo.Some? then Escaped(v.userinfo.value, RAW_USERINFO) + "@" else [])
    + ((if SpellsIpv6(v.host) then "[" + Lower(ToText(v.host)) + "]" else Escaped(v.host, RAW_NAME))
       + (if v.port.Some? then ":" + Decimal.Numeral(v.port.value) else []))
  }

  function SegmentsPrinted(path: Path): seq<string> {
    seq(|path|, i requires 0 <= i < |path| => Escaped(path[i], RAW_PATH))
  }

  function PathPrinted(path: Path): string {
    if path == [[]] then "/" else Join(SegmentsPrinted(path), '/')
  }

  /** The whole URI, in characters. */
  ghost function UriPrinted(u: Uri): string {
    (if u.scheme.Some? then u.scheme.value + ":" else [])
    + ((if u.authority.Some? then "//" + AuthorityPrinted(u.authority.value) else []) + PathPrinted(u.path)
       + ((if u.query.Some? then "?" + Escaped(u.query.value, RAW_QUERY) else [])
          + (if u.fragment.Some? then "#" + Escaped(u.fragment.value, RAW_FRAGMENT) else [])))
  }

  lemma IsIpv6Means(host: bytes)
    ensures IsIpv6(host) <==> SpellsIpv6(host)
  {
    hide Ipv6.Validate, Ipv6.Address;
    if IsIpv6(host) {
      var a := ToText(host);
      Ipv6.ValidateAccepts(a);
      assert ToBytes(a) == host;
      assert Ipv6Text(host, a);
    }
    if a :| Ipv6Text(host, a) {
      assert ToText(host) == a;
      Ipv6.ValidateAccepts(a);
    }
  }

  lemma AuthorityIsPrinted(v: Authority)
    ensures PrintAuthority(v) == AuthorityPrinted(v)
  {
    hide Encode, Escaped, SpellsIpv6, IsIpv6, Lower, Decimal.Numeral;
    IsIpv6Means(v.host);
    EncodeComponent(v.host);
    if v.userinfo.Some? {
      EncodeComponent(v.userinfo.value);
    }
  }

  lemma {:induction false} JoinIsPrinted(path: Path)
    ensures JoinText(path) == Join(SegmentsPrinted(path), '/')
  {
    hide Encode, Escaped;
    if path != [] {
      EncodeComponent(path[0]);
      JoinIsPrinted(path[1..]);
      assert SegmentsPrinted(path)[1..] == SegmentsPrinted(path[1..]);
    }
  }

  /** `Display` writes exactly these characters, also for URIs that do not parse back. */
  lemma PrintIsPrinted(u: Uri)
    ensures Print(u) == UriPrinted(u)
  {
    hide Encode, Escaped, PrintAuthority, AuthorityPrinted, JoinText, SegmentsPrinted;
    JoinIsPrinted(u.path);
    if u.authority.Some? {
      AuthorityIsPrinted(u.authority.value);
    }
    if u.query.Some? {
      EncodeComponent(u.query.value);
    }
    if u.fragment.Some? {
      EncodeComponent(u.fragment.value);
    }
  }

  /** A plus sign is never written raw in a query, and always in a fragment. */
  lemma PlusPrinted(u: Uri)
    ensures u.query.Some? ==> '+' !in ToParts(u).query.value
    ensures u.fragment.Some? ==> ('+' in ToParts(u).fragment.value <==> 43 in u.fragment.value)
  {
    hide PathText, PrintAuthority, Encode;
    if u.query.Some? {
      EncodeCharacters(u.query.value, QUERY_WITHOUT_PLUS);
    }
    if u.fragment.Some? {
      EncodeContains(u.fragment.value, QUERY_OR_FRAGMENT, '+');
    }
  }

  // ---- The host of a name -----------------------------------------------------------------------

  /** A name's host is its decoding with the capital letters of ASCII made small, and nothing else changed. */
  lemma NameLowered(s: string, host: bytes, port: Option<HostPort.u16>)
    ensures HostPort.Parse(s) == Ok((host, port)) && (s == [] || s[0] != '[') ==>
              var decoded := Decode(s[..Find(s, {':'})], REG_NAME, InHost);
              && decoded.Ok? && |host| == |decoded.value|
              && forall i | 0 <= i < |host| ::
                   host[i] == if 65 <= decoded.value[i] <= 90 then decoded.value[i] + 32 else decoded.value[i]
  {
    hide HostPort.Parse, Decode, EscapeTail;
    var k := Find(s, {':'});
    if s == [] || s[0] != '[' {
      assert s == s[..k] + s[k..];
      HostPort.ParseNotIpLiteral(s[..k], s[k..]);
    }
  }

  /** Two texts that differ only in the case of ASCII letters. */
  ghost predicate SameLetters(s: string, t: string) {
    |s| == |t| && forall i | 0 <= i < |s| :: LowerChar(s[i]) == LowerChar(t[i])
  }

  lemma SameNameCharacter(c: char, d: char)
    requires LowerChar(c) == LowerChar(d)
    ensures c in REG_NAME <==> d in REG_NAME
    ensures c == '%' <==> d == '%'
    ensures c in REG_NAME ==> LowerByte(LowByte(c)) == LowerByte(LowByte(d))
  {
  }

  ghost predicate SameDecoding(a: Result<bytes>, b: Result<bytes>) {
    match a
    case Ok(x) => b.Ok? && LowerBytes(x) == LowerBytes(b.value)
    case Err(_) => a == b
  }

  lemma SameDecodingPrepend(x: byte, y: byte, a: Result<bytes>, b: Result<bytes>)
    requires LowerByte(x) == LowerByte(y) && SameDecoding(a, b)
    ensures SameDecoding(Prepend([x], a), Prepend([y], b))
  {
    if a.Ok? {
      var p, q := [x] + a.value, [y] + b.value;
      forall i | 0 <= i < |p|
        ensures |p| == |q| && LowerByte(p[i]) == LowerByte(q[i])
      {
        assert |LowerBytes(a.value)| == |LowerBytes(b.value)|;
        if i > 0 {
          assert LowerBytes(a.value)[i - 1] == LowerBytes(b.value)[i - 1];
        }
      }
      assert |LowerBytes(a.value)| == |LowerBytes(b.value)|;
      assert LowerBytes(p) == LowerBytes(q);
    }
  }

  lemma {:induction false} SameLettersDecode(s: string, t: string, context: Context)
    requires SameLetters(s, t)
    ensures SameDecoding(Decode(s, REG_NAME, context), Decode(t, REG_NAME, context))
    ensures EscapeTail(s) == [] <==> EscapeTail(t) == []
    decreases |s|
  {
    if s != [] {
      SameNameCharacter(s[0], t[0]);
      if s[0] == '%' {
        if |s| >= 2 {
          SameHexValue(s[1], t[1]);
        }
        if |s| >= 3 {
          SameHexValue(s[2], t[2]);
          SameLettersDecode(s[3..], t[3..], context);
          if s[1] in HEXDIG && s[2] in HEXDIG {
            var x := 16 * HexValue(s[1]) + HexValue(s[2]);
            SameDecodingPrepend(x, x, Decode(s[3..], REG_NAME, context), Decode(t[3..], REG_NAME, context));
          }
        }
      } else {
        SameLettersDecode(s[1..], t[1..], context);
        if s[0] in REG_NAME {
          SameDecodingPrepend(
            LowByte(s[0]), LowByte(t[0]), Decode(s[1..], REG_NAME, context), Decode(t[1..], REG_NAME, context));
        }
      }
    }
  }

  /** Names that differ only in the case of letters, of their escapes or not, give the same result. */
  lemma NamesFoldCase(h: string, h': string, p: string)
    requires SameLetters(h, h') && ':' !in h && (h == [] || h[0] != '[') && (p == [] || p[0] == ':')
    ensures HostPort.Parse(h + p) == HostPort.Parse(h' + p)
  {
    hide HostPort.Parse, Decode, EscapeTail, LowerBytes, HostPort.WithPort;
    forall i | 0 <= i < |h'|
      ensures h'[i] != ':' && (h[i] != '[' ==> h'[i] != '[')
    {
      assert LowerChar(h[i]) == LowerChar(h'[i]);
    }
    SameLettersDecode(h, h', InHost);
    HostPort.ParseNotIpLiteral(h, p);
    HostPort.ParseNotIpLiteral(h', p);
  }
}
