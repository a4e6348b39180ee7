/**
 host and port of section 3.2 of RFC 3986, and exactly how `parse_host_port` departs from them.
 */
module RfcHosts {
  import opened Errors
  import opened Sequences
  import opened CharacterClasses
  import opened PercentDecoder
  import opened Codec
  import opened Ascii
  import opened HostPort
  import opened Authorities
  import Decimal
  import Ipv4
  import Ipv6

  // ---- Sections 3.2.2 and 3.2.3 -----------------------------------------------------------------

  /** IPvFuture after its first letter, which ABNF takes in either case. */
  ghost predicate RfcFutureParts(a: string, n: string, b: string) {
    && (a == "v" + n + "." + b || a == "V" + n + "." + b)
    && n != [] && AllIn(n, HEXDIG)
    && b != [] && AllIn(b, IPV_FUTURE_LAST_PART)
  }

  ghost predicate RfcFuture(a: string) {
    exists n, b :: RfcFutureParts(a, n, b)
  }

  ghost predicate RfcLiteral(h: string) {
    exists a :: h == "[" + a + "]" && (Ipv6.RfcAddress(a, true) || RfcFuture(a))
  }

  ghost predicate RfcHost(h: string) {
    RfcLiteral(h) || Ipv4.RfcAddress(h) || Complete(h, REG_NAME)
  }

  /** [ ":" *DIGIT ] */
  ghost predicate RfcPort(p: string) {
    p == [] || (p[0] == ':' && Decimal.AllDigits(p[1..]))
  }

  ghost predicate RfcHostPort(s: string) {
    exists h, p :: s == h + p && RfcHost(h) && RfcPort(p)
  }

  // ---- Where the host ends ----------------------------------------------------------------------

  /** A host ends after its closing bracket, or before the first colon. */
  function HostEnd(s: string): (i: nat)
    ensures i <= |s|
  {
    if s == [] || s[0] != '[' then Find(s, {':'})
    else if Find(s, {']'}) < |s| then Find(s, {']'}) + 1
    else |s|
  }

  ghost predicate HostShape(h: string) {
    || (Avoids(h, {':'}) && (h == [] || h[0] != '['))
    || (|h| >= 2 && h[0] == '[' && h[|h| - 1] == ']' && Avoids(h[..|h| - 1], {']'}))
  }

  lemma HostEndOf(h: string, p: string)
    requires HostShape(h) && (p == [] || p[0] == ':')
    ensures HostEnd(h + p) == |h| && (h + p)[..|h|] == h && (h + p)[|h|..] == p
  {
    DropPrefix(h, p);
    if Avoids(h, {':'}) && (h == [] || h[0] != '[') {
      FindConcat(h, p, {':'});
    } else {
      var a := h[..|h| - 1];
      var rest := "]" + p;
      assert h + p == a + rest;
      FindConcat(a, rest, {']'});
    }
  }

  // ---- Shapes -----------------------------------------------------------------------------------

  lemma BracketShape(a: string)
    requires ']' !in a
    ensures HostShape("[" + a + "]")
    ensures ("[" + a + "]")[1..|a| + 1] == a
  {
    var h := "[" + a + "]";
    assert h[..|h| - 1] == "[" + a;
  }

  lemma CompleteShape(h: string)
    requires Complete(h, REG_NAME)
    ensures HostShape(h) && (h == [] || h[0] != '[')
  {
    hide Complete;
    CompleteAvoids(h, REG_NAME, {':', '['});
  }

  /** An IPv4address is also a reg-name. */
  lemma Ipv4IsRegName(h: string)
    requires Ipv4.RfcAddress(h)
    ensures Complete(h, REG_NAME)
  {
    hide Ipv4.Validate, Ipv4.RfcAddress, Complete;
    Ipv4.ValidateAcceptsRfcAddresses(h);
    Ipv4.AcceptedCharacters(h);
    PlainComplete(h, REG_NAME);
  }

  // ---- Literals ---------------------------------------------------------------------------------

  /** What the code takes for an IPvFuture between the brackets. */
  ghost predicate LooseFutureParts(a: string, n: string, b: string) {
    a == "v" + n + "." + b && AllIn(n, HEXDIG) && AllIn(b, IPV_FUTURE_LAST_PART)
  }

  ghost predicate LooseFuture(a: string) {
    exists n, b :: LooseFutureParts(a, n, b)
  }

  /** The number and the body of an IPvFuture are both there. */
  predicate FutureFilled(a: string) {
    1 < Find(a, {'.'}) && Find(a, {'.'}) + 1 < |a|
  }

  lemma FutureDot(v: string, n: string, b: string)
    requires |v| == 1 && v[0] != '.' && AllIn(n, HEXDIG)
    ensures var a := v + n + "." + b;
            && a[0] == v[0]
            && Find(a, {'.'}) == 1 + |n| && a[1..1 + |n|] == n && a[2 + |n|..] == b && |a| == |n| + |b| + 2
  {
    Assoc(v + n, ".", b);
    FindConcat(v + n, "." + b, {'.'});
    DropPrefix(v + n + ".", b);
    assert (v + n + "." + b)[1..1 + |n|] == n;
  }

  lemma FutureAvoids(v: string, n: string, b: string)
    requires |v| == 1 && v[0] != ']' && AllIn(n, HEXDIG) && AllIn(b, IPV_FUTURE_LAST_PART)
    ensures ']' !in v + n + "." + b
    ensures v[0] !in DELIMITERS ==> Avoids(v + n + "." + b, DELIMITERS)
  {
  }

  lemma LooseFutureFacts(a: string)
    ensures LooseFuture(a) ==> a != [] && a[0] == 'v' && ']' !in a && (FutureFilled(a) ==> RfcFuture(a))
    ensures LooseFuture(a) ==> Avoids(a, DELIMITERS)
  {
    if LooseFuture(a) {
      var n, b :| LooseFutureParts(a, n, b);
      FutureDot("v", n, b);
      FutureAvoids("v", n, b);
      assert FutureFilled(a) ==> RfcFutureParts(a, n, b);
    }
  }

  lemma RfcFutureFacts(a: string)
    ensures RfcFuture(a) ==>
              a != [] && a[0] in {'v', 'V'} && ']' !in a && FutureFilled(a) && (a[0] == 'v' ==> LooseFuture(a))
    ensures RfcFuture(a) ==> Avoids(a, DELIMITERS)
  {
    if RfcFuture(a) {
      var n, b :| RfcFutureParts(a, n, b);
      if a == "v" + n + "." + b {
        FutureDot("v", n, b);
        FutureAvoids("v", n, b);
        assert LooseFutureParts(a, n, b);
      } else {
        FutureDot("V", n, b);
        FutureAvoids("V", n, b);
      }
    }
  }

  lemma AddressFacts(a: string)
    ensures Ipv6.Validate(a).Ok? ==> ']' !in a && (a != [] ==> a[0] !in {'v', 'V'}) && Avoids(a, DELIMITERS)
    ensures Ipv6.RfcAddress(a, true) <==> Ipv6.Validate(a).Ok? && Ipv6.PlainTail(a)
  {
    hide Ipv6.Validate, Ipv6.RfcAddress, Ipv6.PlainTail;
    Ipv6.ValidateAcceptsRfcAddresses(a);
    if Ipv6.Validate(a).Ok? {
      Ipv6.AcceptedIsAscii(a);
      assert forall k | 0 <= k < |a| :: Ipv6.AddressCharacter(a[k]);
    }
  }

  // ---- Hosts ------------------------------------------------------------------------------------

  ghost predicate LooseHost(h: string) {
    exists host :: HostText(h, host)
  }

  predicate IsBracketed(h: string) {
    |h| >= 2 && h[0] == '[' && h[|h| - 1] == ']'
  }

  function Inside(h: string): string
    requires IsBracketed(h)
  {
    h[1..|h| - 1]
  }

  lemma InsideIs(h: string, a: string)
    ensures h == "[" + a + "]" <==> IsBracketed(h) && a == Inside(h)
  {
    if IsBracketed(h) {
      assert h == "[" + Inside(h) + "]";
    }
    var t := "[" + a + "]";
    assert t[1..|t| - 1] == a;
  }

  lemma RegNameIsComplete(h: string)
    ensures Complete(h, REG_NAME) ==> exists host :: RegName(h, host)
  {
    if Complete(h, REG_NAME) {
      var ts :| TokensAllowed(ts, REG_NAME) && h == Render(ts);
      assert RegName(h, LowerBytes(Values(ts)));
    }
  }

  lemma Ipv6Loose(h: string, host: bytes)
    ensures Ipv6Literal(h, host) ==> IsBracketed(h) && Ipv6.Validate(Inside(h)).Ok?
  {
    hide Ipv6.Validate, Ipv6.Address;
    if Ipv6Literal(h, host) {
      var a :| h == "[" + a + "]" && Ipv6.Address(a) && IsAscii(a) && host == ToBytes(a);
      InsideIs(h, a);
      Ipv6.ValidateAccepts(a);
    }
  }

  lemma LooseIpv6(h: string)
    requires IsBracketed(h) && Ipv6.Validate(Inside(h)).Ok?
    ensures LooseHost(h)
  {
    hide Ipv6.Validate, Ipv6.Address;
    var a := Inside(h);
    InsideIs(h, a);
    Ipv6.ValidateAccepts(a);
    Ipv6.AcceptedIsAscii(a);
    assert Ipv6Literal(h, ToBytes(a));
    assert HostText(h, ToBytes(a));
  }

  lemma FutureText(n: string, b: string)
    ensures "[v" + n + "." + b + "]" == "[" + ("v" + n + "." + b) + "]"
  {
  }

  lemma FutureLoose(h: string, host: bytes)
    ensures FutureLiteral(h, host) ==> IsBracketed(h) && LooseFuture(Inside(h))
  {
    if FutureLiteral(h, host) {
      var n, b :| FutureParts(h, host, n, b);
      FutureText(n, b);
      InsideIs(h, "v" + n + "." + b);
      assert LooseFutureParts("v" + n + "." + b, n, b);
    }
  }

  lemma LooseFutureHost(h: string)
    requires IsBracketed(h) && LooseFuture(Inside(h))
    ensures LooseHost(h)
  {
    hide RegName, Ipv6Literal, ToBytes;
    var n, b :| LooseFutureParts(Inside(h), n, b);
    FutureText(n, b);
    InsideIs(h, Inside(h));
    LiteralsAreAscii(n);
    LiteralsAreAscii(b);
    var host := [118] + ToBytes(n) + [46] + ToBytes(b);
    assert FutureParts(h, host, n, b);
    assert HostText(h, host);
  }

  /** The hosts the code accepts: a reg-name, or brackets around an address or an IPvFuture. */
  lemma LooseHostMeans(h: string)
    ensures LooseHost(h) <==>
            || Complete(h, REG_NAME)
            || (IsBracketed(h) && (Ipv6.Validate(Inside(h)).Ok? || LooseFuture(Inside(h))))
  {
    hide RegName, Ipv6Literal, FutureLiteral, Complete, Ipv6.Validate, LooseFuture, Inside;
    RegNameIsComplete(h);
    if host :| RegName(h, host) {
      assert HostText(h, host);
    }
    if host :| HostText(h, host) {
      RegNameDecodes(h, host);
      CompleteDecodes(h, REG_NAME, InHost);
      Ipv6Loose(h, host);
      FutureLoose(h, host);
    }
    if IsBracketed(h) {
      if Ipv6.Validate(Inside(h)).Ok? {
        LooseIpv6(h);
      } else if LooseFuture(Inside(h)) {
        LooseFutureHost(h);
      }
    }
  }

  lemma RfcHostMeans(h: string)
    ensures RfcHost(h) <==>
            || Complete(h, REG_NAME)
            || (IsBracketed(h) && (Ipv6.RfcAddress(Inside(h), true) || RfcFuture(Inside(h))))
  {
    hide Complete, Ipv6.RfcAddress, RfcFuture, Inside, Ipv4.RfcAddress;
    if Ipv4.RfcAddress(h) {
      Ipv4IsRegName(h);
    }
    forall a
      ensures h == "[" + a + "]" <==> IsBracketed(h) && a == Inside(h)
    {
      InsideIs(h, a);
    }
  }

  /** What the RFC asks of an accepted host. */
  ghost predicate HostConforms(h: string) {
    IsBracketed(h) ==>
      if Inside(h) != [] && Inside(h)[0] == 'v' then FutureFilled(Inside(h)) else Ipv6.PlainTail(Inside(h))
  }

  /** What the code asks of a host of the RFC. */
  predicate HostFits(h: string) {
    !("[V" <= h)
  }

  lemma CapitalV(h: string)
    requires IsBracketed(h)
    ensures "[V" <= h <==> Inside(h) != [] && Inside(h)[0] == 'V'
  {
    assert "[V" <= h <==> h[0] == '[' && h[1] == 'V';
  }

  lemma HostRelation(h: string)
    ensures LooseHost(h) ==> HostShape(h) && (RfcHost(h) <==> HostConforms(h))
    ensures RfcHost(h) ==> HostShape(h) && (LooseHost(h) <==> HostFits(h))
  {
    hide LooseHost, RfcHost, Complete, Ipv6.RfcAddress, Ipv6.Validate, RfcFuture, LooseFuture, FutureFilled,
      Ipv6.PlainTail, HostShape;
    LooseHostMeans(h);
    RfcHostMeans(h);
    if Complete(h, REG_NAME) {
      CompleteShape(h);
    }
    if IsBracketed(h) {
      var a := Inside(h);
      InsideIs(h, a);
      AddressFacts(a);
      LooseFutureFacts(a);
      RfcFutureFacts(a);
      CapitalV(h);
      if ']' !in a {
        BracketShape(a);
      }
    }
  }

  /** No host contains a delimiter that ends an authority or a userinfo. */
  lemma HostAvoids(h: string)
    requires LooseHost(h) || RfcHost(h)
    ensures Avoids(h, DELIMITERS)
  {
    hide LooseHost, RfcHost, Complete, Ipv6.RfcAddress, Ipv6.Validate, RfcFuture, LooseFuture;
    LooseHostMeans(h);
    RfcHostMeans(h);
    CompleteAvoids(h, REG_NAME, DELIMITERS);
    if IsBracketed(h) {
      var a := Inside(h);
      InsideIs(h, a);
      AddressFacts(a);
      LooseFutureFacts(a);
      RfcFutureFacts(a);
    }
  }

  // ---- Ports ------------------------------------------------------------------------------------

  ghost predicate LoosePort(p: string) {
    exists port :: PortText(p, port)
  }

  predicate PortConforms(p: string) {
    |p| > 1 ==> p[1] != '+'
  }

  predicate PortFits(p: string) {
    |p| > 1 && Decimal.AllDigits(p[1..]) ==> Decimal.Value(p[1..]) <= 65535
  }

  lemma LoosePortMeans(p: string)
    ensures LoosePort(p) <==>
            p == [] || (p[0] == ':' && (|p| == 1 || Decimal.ParseUint(p[1..], 65535).Some?))
  {
    assert |p| == 1 && p[0] == ':' ==> p == ":";
    if p == [] || p == ":" {
      assert PortText(p, None);
    } else if p[0] == ':' && Decimal.ParseUint(p[1..], 65535).Some? {
      assert PortText(p, Some(Decimal.ParseUint(p[1..], 65535).value));
    }
  }

  lemma PortRelation(p: string)
    ensures LoosePort(p) ==> (p == [] || p[0] == ':') && (RfcPort(p) <==> PortConforms(p))
    ensures RfcPort(p) ==> (LoosePort(p) <==> PortFits(p))
  {
    hide LoosePort;
    LoosePortMeans(p);
    if |p| > 1 {
      assert p[1..][0] == p[1];
    }
  }

  // ---- Host and port ----------------------------------------------------------------------------

  /** What the RFC asks of accepted text. */
  ghost predicate Conforms(s: string) {
    HostConforms(s[..HostEnd(s)]) && PortConforms(s[HostEnd(s)..])
  }

  /** What the code asks of text of the RFC. */
  predicate Fits(s: string) {
    HostFits(s[..HostEnd(s)]) && PortFits(s[HostEnd(s)..])
  }

  lemma ParsesLoosely(s: string)
    ensures Parse(s).Ok? <==> LooseHost(s[..HostEnd(s)]) && LoosePort(s[HostEnd(s)..])
  {
    hide Parse, HostEnd, HostText, PortText, RfcHost, HostConforms, HostFits, RfcPort, HostShape;
    var k := HostEnd(s);
    if Parse(s).Ok? {
      var (host, port) := Parse(s).value;
      ParseAccepts(s, host, port);
      var h, p :| s == h + p && HostText(h, host) && PortText(p, port);
      HostRelation(h);
      PortRelation(p);
      HostEndOf(h, p);
    }
    if LooseHost(s[..k]) && LoosePort(s[k..]) {
      var host :| HostText(s[..k], host);
      var port :| PortText(s[k..], port);
      assert s == s[..k] + s[k..];
      ParseAccepts(s, host, port);
    }
  }

  lemma RfcCut(s: string)
    ensures RfcHostPort(s) <==> RfcHost(s[..HostEnd(s)]) && RfcPort(s[HostEnd(s)..])
  {
    hide HostEnd, RfcHost, HostShape, LooseHost, HostConforms, HostFits;
    var k := HostEnd(s);
    forall h, p | s == h + p && RfcHost(h) && RfcPort(p)
      ensures h == s[..k] && p == s[k..]
    {
      HostRelation(h);
      HostEndOf(h, p);
    }
    assert s == s[..k] + s[k..];
  }

  lemma PortAvoids(p: string)
    requires LoosePort(p) || RfcPort(p)
    ensures Avoids(p, DELIMITERS)
  {
    hide LoosePort;
    LoosePortMeans(p);
    if |p| > 1 {
      var t := if |p| > 2 && p[1] == '+' then p[2..] else p[1..];
      assert p[1..][1..] == p[2..];
      assert p[1..][0] == p[1];
      assert Decimal.AllDigits(t);
      assert forall i | 2 <= i < |p| :: p[i] == p[2..][i - 2] && p[i] == p[1..][i - 1];
    }
  }

  lemma HostPortAvoids(s: string)
    requires Parse(s).Ok? || RfcHostPort(s)
    ensures Avoids(s, DELIMITERS)
  {
    hide Parse, HostEnd, LooseHost, LoosePort, RfcHost, RfcPort, RfcHostPort;
    var k := HostEnd(s);
    ParsesLoosely(s);
    RfcCut(s);
    HostAvoids(s[..k]);
    PortAvoids(s[k..]);
    assert s == s[..k] + s[k..];
  }

  /**
   Host and port of the RFC are exactly the accepted texts that conform: with an IPvFuture that has a
   number and a body, no leading zeros in the IPv4 part of an address, and no plus sign in the port.
   And of the RFC's texts exactly those are accepted that fit: the port in 16 bits, and no `[V`.
   */
  lemma ParseAcceptsRfc(s: string)
    ensures Parse(s).Ok? ==> (RfcHostPort(s) <==> Conforms(s))
    ensures RfcHostPort(s) ==> (Parse(s).Ok? <==> Fits(s))
  {
    hide Parse, HostEnd, LooseHost, LoosePort, RfcHost, RfcPort, HostConforms, HostFits, PortConforms, PortFits,
      HostShape, RfcHostPort;
    ParsesLoosely(s);
    RfcCut(s);
    HostRelation(s[..HostEnd(s)]);
    PortRelation(s[HostEnd(s)..]);
  }

  /** `[v.]`: an IPvFuture without number and body. */
  lemma EmptyFutureAccepted()
    ensures Parse("[v.]").Ok? && !RfcHostPort("[v.]")
  {
    hide Parse, RfcHostPort, LooseHost, HostConforms, HostFits, HostShape, RfcHost;
    var h := "[v.]";
    assert h == "[" + "v." + "]";
    InsideIs(h, "v.");
    assert LooseFutureParts("v.", "", "");
    LooseHostMeans(h);
    HostRelation(h);
    AloneParses(h);
    NotFilled();
  }

  lemma NotFilled()
    ensures !HostConforms("[v.]")
  {
    assert "[v.]" == "[" + "v." + "]";
    InsideIs("[v.]", "v.");
    FindAt("v.", {'.'}, 1);
  }

  /** A host without a port. */
  lemma AloneParses(h: string)
    requires HostShape(h)
    ensures Parse(h).Ok? <==> LooseHost(h)
    ensures RfcHostPort(h) <==> RfcHost(h)
    ensures Conforms(h) <==> HostConforms(h)
  {
    hide Parse, RfcHostPort, LooseHost, HostConforms, HostShape, RfcHost, HostEnd, LoosePort;
    Empty(h);
    HostEndOf(h, []);
    ParsesLoosely(h);
    RfcCut(h);
    LoosePortMeans([]);
  }

  /** `[V7.a]`: a capital letter the RFC allows and the code does not. */
  lemma CapitalFutureRejected()
    ensures Parse("[V7.a]").Err? && RfcHostPort("[V7.a]")
  {
    hide Parse, RfcHostPort, LooseHost, HostConforms, HostShape, RfcHost;
    var h := "[V7.a]";
    assert h == "[" + "V7.a" + "]";
    InsideIs(h, "V7.a");
    assert RfcFutureParts("V7.a", "7", "a");
    assert RfcFuture("V7.a");
    RfcHostMeans(h);
    HostRelation(h);
    AloneParses(h);
    assert h[..2] == "[V";
  }

  /** `:+8`: a port with a plus sign. */
  lemma PlusPortAccepted()
    ensures Parse(":+8").Ok? && !RfcHostPort(":+8")
  {
    hide Parse, RfcHostPort, LooseHost, RfcHost, LoosePort, Complete;
    var s := ":+8";
    FindAt(s, {':'}, 0);
    assert s[..0] == [] && s[0..] == s;
    assert s[1..] == "+8" && "+8"[1..] == "8" && "8"[..0] == "";
    assert Decimal.Value("8") == 8;
    PlainComplete("", REG_NAME);
    LooseHostMeans("");
    LoosePortMeans(s);
    ParsesLoosely(s);
    RfcCut(s);
  }

  /** Without a host, the port alone decides. */
  lemma PortAlone(p: string)
    requires p != [] && Decimal.AllDigits(p)
    ensures RfcHostPort(":" + p)
    ensures Parse(":" + p).Ok? <==> Decimal.Value(p) <= 65535
  {
    hide Parse, LooseHost, RfcHost, LoosePort, Complete, RfcHostPort;
    var s := ":" + p;
    FindAt(s, {':'}, 0);
    assert s[..0] == [] && s[0..] == s && s[1..] == p;
    PlainComplete("", REG_NAME);
    LooseHostMeans("");
    RfcHostMeans("");
    LoosePortMeans(s);
    ParsesLoosely(s);
    RfcCut(s);
  }
}
