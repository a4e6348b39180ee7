/**
 The authority component (src/authority.rs; section 3.2 of RFC 3986): its parser, its printer,
 and the round trip between them.
 */
module Authorities {
  import opened Errors
  import opened Sequences
  import opened CharacterClasses
  import opened PercentDecoder
  import opened Codec
  import opened Ascii
  import opened HostPort
  import Decimal
  import Ipv6

  datatype Authority = Authority(userinfo: Option<bytes>, host: bytes, port: Option<u16>)

  /** The userinfo before the first `@`, and the text after it. */
  function ParseUserinfo(s: string): Result<(Option<bytes>, string)> {
    var delimiter := Find(s, {'@'});
    if delimiter < |s| then
      var userinfo :- Decode(s[..delimiter], USER_INFO, InUserinfo);
      Ok((Some(userinfo), s[delimiter + 1..]))
    else Ok((None, s))
  }

  function ParseAuthority(s: string): Result<Authority> {
    var (userinfo, hostPort) :- ParseUserinfo(s);
    var (host, port) :- HostPort.Parse(hostPort);
    Ok(Authority(userinfo, host, port))
  }

  /** A host that reads as an IPv6 address; other byte strings never do (`Ipv6.AcceptedIsAscii`). */
  predicate IsIpv6(host: bytes) {
    AllAscii(host) && Ipv6.Validate(ToText(host)).Ok?
  }

  function PrintUserinfo(userinfo: Option<bytes>): string {
    if userinfo.Some? then Encode(userinfo.value, USER_INFO) + "@" else []
  }

  function PrintHost(host: bytes): string {
    if IsIpv6(host) then "[" + Lower(ToText(host)) + "]" else Encode(host, REG_NAME)
  }

  function PrintPort(port: Option<u16>): string {
    if port.Some? then ":" + Decimal.Numeral(port.value) else []
  }

  function PrintAuthority(a: Authority): string {
    PrintUserinfo(a.userinfo) + (PrintHost(a.host) + PrintPort(a.port))
  }

  /** `Display::fmt`: the pieces are written one after the other. */
  method Display(a: Authority) returns (f: string)
    ensures f == PrintAuthority(a)
  {
    hide IsIpv6, Encode, Lower, Decimal.Numeral;
    var userinfo, host, port := [], [], [];
    if a.userinfo.Some? {
      userinfo := EncodeElement(a.userinfo.value, USER_INFO);
      userinfo := userinfo + "@";
    }
    f := userinfo;
    if IsIpv6(a.host) {
      host := "[" + Lower(ToText(a.host)) + "]";
    } else {
      host := EncodeElement(a.host, REG_NAME);
    }
    f := f + host;
    if a.port.Some? {
      port := ":" + Decimal.Numeral(a.port.value);
    }
    f := f + port;
    Assoc(userinfo, host, port);
  }

  // ---- Round trip -------------------------------------------------------------------------------

  /** What a round trip makes of an authority: the host in lower case. */
  function CanonAuthority(a: Authority): Authority {
    a.(host := LowerBytes(a.host))
  }

  lemma LowerIpv6(host: bytes)
    requires IsIpv6(host)
    ensures var a := Lower(ToText(host));
            Ipv6.Validate(a).Ok? && IsAscii(a) && ToBytes(a) == LowerBytes(host)
  {
    hide Ipv6.Validate;
    Ipv6.AcceptedLower(ToText(host));
  }

  /** The printed host is a host text of the grammar, for the lower-cased host. */
  lemma PrintHostText(host: bytes)
    ensures HostText(PrintHost(host), LowerBytes(host))
  {
    hide Ipv6.Validate, Ipv6.Address;
    if IsIpv6(host) {
      var a := Lower(ToText(host));
      LowerIpv6(host);
      Ipv6.ValidateAccepts(a);
      assert PrintHost(host) == "[" + a + "]";
      assert Ipv6Literal(PrintHost(host), LowerBytes(host));
    } else {
      PrintRegName(host);
    }
  }

  lemma PrintRegName(host: bytes)
    ensures RegName(Encode(host, REG_NAME), LowerBytes(host))
  {
    var ts := EncodeTokens(host, REG_NAME);
  }

  lemma PrintPortText(port: Option<u16>)
    ensures PortText(PrintPort(port), port)
  {
    if port.Some? {
      Decimal.NumeralValue(port.value);
      Decimal.ParseNumeral(port.value, 65535);
      HeadTail(':', Decimal.Numeral(port.value));
    }
  }

  lemma ParseHostPortPrinted(a: Authority)
    ensures HostPort.Parse(PrintHost(a.host) + PrintPort(a.port)) == Ok((LowerBytes(a.host), a.port))
  {
    hide HostPort.Parse, HostText, PortText;
    PrintHostText(a.host);
    PrintPortText(a.port);
    HostPort.ParseAccepts(PrintHost(a.host) + PrintPort(a.port), LowerBytes(a.host), a.port);
  }

  const DELIMITERS: set<char> := {'/', '?', '#', '@'}

  lemma PrintHostAvoids(host: bytes)
    ensures Avoids(PrintHost(host), DELIMITERS)
  {
    hide Ipv6.Validate;
    if IsIpv6(host) {
      LowerIpv6(host);
      Ipv6.AcceptedIsAscii(Lower(ToText(host)));
    } else {
      EncodeAvoids(host, REG_NAME, DELIMITERS);
    }
  }

  lemma PrintPortAvoids(port: Option<u16>)
    ensures Avoids(PrintPort(port), DELIMITERS)
  {
    if port.Some? {
      Decimal.NumeralValue(port.value);
    }
  }

  lemma AvoidsConcat(a: string, b: string, ds: set<char>)
    requires Avoids(a, ds) && Avoids(b, ds)
    ensures Avoids(a + b, ds)
  {
  }

  /** A printed authority contains none of the delimiters that end an authority. */
  lemma PrintAuthorityAvoids(a: Authority)
    ensures Avoids(PrintAuthority(a), {'/', '?', '#'})
    ensures Avoids(PrintHost(a.host) + PrintPort(a.port), {'@'})
  {
    hide PrintHost, PrintPort;
    PrintHostAvoids(a.host);
    PrintPortAvoids(a.port);
    AvoidsConcat(PrintHost(a.host), PrintPort(a.port), DELIMITERS);
    if a.userinfo.Some? {
      EncodeAvoids(a.userinfo.value, USER_INFO, {'/', '?', '#'});
      AvoidsConcat(Encode(a.userinfo.value, USER_INFO), "@", {'/', '?', '#'});
    }
    AvoidsConcat(PrintUserinfo(a.userinfo), PrintHost(a.host) + PrintPort(a.port), {'/', '?', '#'});
  }

  /** Parsing a printed authority gives it back with its host in lower case, whatever its bytes. */
  lemma AuthorityRoundTrip(a: Authority)
    ensures ParseAuthority(PrintAuthority(a)) == Ok(CanonAuthority(a))
  {
    hide HostPort.Parse, PrintHost, PrintPort, Decode, Encode, LowerBytes;
    var hp := PrintHost(a.host) + PrintPort(a.port);
    ParseHostPortPrinted(a);
    PrintAuthorityAvoids(a);
    if a.userinfo.Some? {
      var u := Encode(a.userinfo.value, USER_INFO);
      EncodeAvoids(a.userinfo.value, USER_INFO, {'@'});
      DecodeEncode(a.userinfo.value, USER_INFO, USER_INFO, InUserinfo);
      Assoc(u, "@", hp);
      FindConcat(u, "@" + hp, {'@'});
      DropPrefix(u + "@", hp);
    } else {
      Empty(hp);
      FindConcat(hp, [], {'@'});
    }
  }

  // ---- The kind of host -------------------------------------------------------------------------

  predicate Bracketed(h: string) {
    h != [] && h[0] == '['
  }

  /** Both texts are reg-names, or both IPv6 literals, or both IPvFuture literals. */
  ghost predicate SameKind(h: string, host: bytes, h': string, host': bytes) {
    || (RegName(h, host) && RegName(h', host'))
    || (Ipv6Literal(h, host) && Ipv6Literal(h', host'))
    || (FutureLiteral(h, host) && FutureLiteral(h', host'))
  }

  lemma RegNameNotBracketed(h: string, host: bytes)
    ensures RegName(h, host) ==> !Bracketed(h)
  {
    if RegName(h, host) {
      var ts :| TokensAllowed(ts, REG_NAME) && h == Render(ts) && host == LowerBytes(Values(ts));
      assert ts != [] ==> TokenAllowed(ts[0], REG_NAME);
    }
  }

  lemma LiteralBracketed(h: string, host: bytes)
    ensures Ipv6Literal(h, host) || FutureLiteral(h, host) ==> Bracketed(h)
  {
    if Ipv6Literal(h, host) {
      var a :| h == "[" + a + "]" && Ipv6.Address(a) && IsAscii(a) && host == ToBytes(a);
    } else if FutureLiteral(h, host) {
      var n, b :| FutureParts(h, host, n, b);
      assert h[0] == "[v"[0];
    }
  }

  lemma FutureNotIpv6(h: string, host: bytes)
    ensures FutureLiteral(h, host) ==> !IsIpv6(host)
  {
    hide Ipv6.Validate;
    if FutureLiteral(h, host) {
      var n, b :| FutureParts(h, host, n, b);
      assert host[0] == 118;
      assert ToText(host)[0] == 'v';
      if IsIpv6(host) {
        Ipv6.AcceptedIsAscii(ToText(host));
      }
    }
  }

  /** An IPv6 literal is printed as it was read, in lower case. */
  lemma Ipv6Reprinted(h: string, host: bytes)
    ensures Ipv6Literal(h, host) ==> IsIpv6(host) && PrintHost(host) == Lower(h)
  {
    hide Ipv6.Validate, Ipv6.Address;
    if Ipv6Literal(h, host) {
      var a :| h == "[" + a + "]" && Ipv6.Address(a) && IsAscii(a) && host == ToBytes(a);
      Ipv6.ValidateAccepts(a);
      assert ToText(host) == a;
      assert Lower(h) == "[" + Lower(a) + "]";
    }
  }

  /**
   Printing a parsed host keeps its kind, except that every IPvFuture literal becomes a reg-name
   without brackets, and a reg-name whose bytes spell an IPv6 address becomes a literal.
   */
  lemma HostKindKept(h: string, host: bytes)
    requires HostText(h, host)
    ensures SameKind(h, host, PrintHost(host), LowerBytes(host)) <==>
            !FutureLiteral(h, host) && (RegName(h, host) ==> !IsIpv6(host))
    ensures Bracketed(PrintHost(host)) <==> IsIpv6(host)
  {
    hide RegName, Ipv6Literal, FutureLiteral, IsIpv6;
    PrintedKind(host);
    RegNameNotBracketed(PrintHost(host), LowerBytes(host));
    RegNameNotBracketed(h, host);
    LiteralBracketed(h, host);
    FutureNotIpv6(h, host);
    Ipv6Reprinted(h, host);
  }

  lemma PrintedKind(host: bytes)
    ensures var text := PrintHost(host);
            && (IsIpv6(host) ==> Bracketed(text) && Ipv6Literal(text, LowerBytes(host)))
            && (!IsIpv6(host) ==> !Bracketed(text) && RegName(text, LowerBytes(host)))
            && !FutureLiteral(text, LowerBytes(host))
  {
    hide RegName, Ipv6Literal, FutureLiteral, IsIpv6;
    var text := PrintHost(host);
    PrintRegName(host);
    RegNameNotBracketed(text, LowerBytes(host));
    LiteralBracketed(text, LowerBytes(host));
    if IsIpv6(host) {
      PrintHostText(host);
      Ipv6LowerToo(host);
      FutureNotIpv6(text, LowerBytes(host));
    }
  }

  lemma Ipv6LowerToo(host: bytes)
    requires IsIpv6(host)
    ensures IsIpv6(LowerBytes(host))
  {
    hide Ipv6.Validate;
    LowerIpv6(host);
    assert ToText(LowerBytes(host)) == Lower(ToText(host));
  }

  lemma ColonOneIsIpv6()
    ensures Ipv6.Validate("::1").Ok?
  {
    hide Ipv6.Validate;
    Ipv6.ValidateResult("::1");
    assert "::1"[2..] == "1";
    FindAt("1", {':'}, 1);
    assert "1"[..1] == "1";
    Ipv6.ReadPieceMeans("1");
  }

  lemma EscapedColons()
    ensures RegName("%3A%3A1", [58, 58, 49])
  {
    var ts := [Escape('3', 'A'), Escape('3', 'A'), Plain('1')];
    assert ts[1..] == [Escape('3', 'A'), Plain('1')] && ts[1..][1..] == [Plain('1')];
    assert Render([Plain('1')]) == "1" && Values([Plain('1')]) == [49];
    assert Render(ts[1..]) == "%3A1" && Values(ts[1..]) == [58, 49];
    assert Render(ts) == "%3A%3A1" && Values(ts) == [58, 58, 49];
    assert LowerBytes([58, 58, 49]) == [58, 58, 49];
    assert TokensAllowed(ts, REG_NAME);
  }

  /** `%3A%3A1`, a reg-name, is printed as `[::1]`. */
  lemma RegNameBecomesIpv6()
    ensures RegName("%3A%3A1", [58, 58, 49]) && PrintHost([58, 58, 49]) == "[::1]"
  {
    hide Ipv6.Validate, RegName;
    EscapedColons();
    ColonOneIsIpv6();
    assert ToText([58, 58, 49]) == "::1";
    assert Lower("::1") == "::1";
  }

  lemma EncodedExample()
    ensures Encode([118, 55, 46, 97, 58, 98], REG_NAME) == "v7.a%3Ab"
  {
    EncodedEnd();
    EncodeCons(97, [58, 98], REG_NAME);
    EncodeCons(46, [97, 58, 98], REG_NAME);
    EncodeCons(55, [46, 97, 58, 98], REG_NAME);
    EncodeCons(118, [55, 46, 97, 58, 98], REG_NAME);
  }

  lemma EncodedEnd()
    ensures Encode([58, 98], REG_NAME) == "%3Ab"
  {
    EncodeCons(98, [], REG_NAME);
    EncodeCons(58, [98], REG_NAME);
  }

  lemma EncodeCons(b: byte, rest: bytes, allowed: set<char>)
    ensures Encode([b] + rest, allowed) == EncodeByte(b, allowed) + Encode(rest, allowed)
  {
    HeadTail(b, rest);
  }

  /** `[v7.a:b]`, an IPvFuture literal, is printed as `v7.a%3Ab`. */
  lemma FutureBecomesRegName()
    ensures var host: bytes := [118, 55, 46, 97, 58, 98];
            FutureLiteral("[v7.a:b]", host) && PrintHost(host) == "v7.a%3Ab"
  {
    hide IsIpv6, Encode;
    var host: bytes := [118, 55, 46, 97, 58, 98];
    assert ToBytes("7") == [55] && ToBytes("a:b") == [97, 58, 98];
    assert FutureParts("[v7.a:b]", host, "7", "a:b");
    FutureNotIpv6("[v7.a:b]", host);
    EncodedExample();
  }
}
