/**
 The host/port state machine of src/parse_host_port.rs and the grammar it accepts.
 */
module HostPort {
  import opened Errors
  import opened Sequences
  import opened CharacterClasses
  import opened PercentDecoder
  import opened Codec
  import opened Ascii
  import Decimal
  import Ipv6

  datatype Shared = Shared(
    host: bytes,
    hostIsRegName: bool,
    ipv6Address: string,
    decoder: Decoder,
    portString: string)

  datatype State =
    | NotIpLiteral(shared: Shared)
    | PercentEncodedCharacter(shared: Shared)
    | Ipv6Address(shared: Shared)
    | IpvFutureNumber(shared: Shared)
    | IpvFutureBody(shared: Shared)
    | GarbageCheck(shared: Shared)
    | Port(shared: Shared)
  {
    /** Outside an escape the decoder is reset; inside one it has read at most one digit. */
    predicate Valid() {
      shared.decoder.Valid() && (!PercentEncodedCharacter? ==> shared.decoder == FRESH)
    }
  }

  type u16 = n: int | 0 <= n < 0x1_0000

  type HostAndPort = (bytes, Option<u16>)

  const START: Shared := Shared([], false, [], FRESH, [])

  /** The initial state, and the text still to be read. */
  function New(s: string): (State, string) {
    if |s| >= 2 && s[0] == '[' && s[1] == 'v' then (IpvFutureNumber(START.(host := [118])), s[2..])
    else if |s| >= 1 && s[0] == '[' then (Ipv6Address(START), s[1..])
    else (NotIpLiteral(START.(hostIsRegName := true)), s)
  }

  function Push(sh: Shared, c: char): Shared
    requires c as int < 256
  {
    sh.(host := sh.host + [c as int])
  }

  /** One character; every state reached keeps `Valid`, and every conversion to a byte is in range. */
  function Next(st: State, c: char): (r: Result<State>)
    requires st.Valid()
    ensures r.Ok? ==> r.value.Valid()
  {
    var sh := st.shared;
    match st
    case NotIpLiteral(_) =>
      if c == '%' then Ok(PercentEncodedCharacter(sh))
      else if c == ':' then Ok(Port(sh))
      else if c in REG_NAME then Ok(NotIpLiteral(Push(sh, c)))
      else Err(IllegalCharacter(InHost))
    case PercentEncodedCharacter(_) => NextPercentEncodedCharacter(sh, c)
    case Ipv6Address(_) =>
      if c == ']' then
        var _ :- Ipv6.Validate(sh.ipv6Address);
        Ipv6.AcceptedIsAscii(sh.ipv6Address);
        Ok(GarbageCheck(sh.(host := ToBytes(sh.ipv6Address))))
      else Ok(Ipv6Address(sh.(ipv6Address := sh.ipv6Address + [c])))
    case IpvFutureNumber(_) =>
      if c == '.' then Ok(IpvFutureBody(Push(sh, '.')))
      else if c == ']' then Err(TruncatedHost)
      else if c in HEXDIG then Ok(IpvFutureNumber(Push(sh, c)))
      else Err(IllegalCharacter(InIpvFuture))
    case IpvFutureBody(_) =>
      if c == ']' then Ok(GarbageCheck(sh))
      else if c in IPV_FUTURE_LAST_PART then Ok(IpvFutureBody(Push(sh, c)))
      else Err(IllegalCharacter(InIpvFuture))
    case GarbageCheck(_) =>
      if c == ':' then Ok(Port(sh)) else Err(IllegalCharacter(InHost))
    case Port(_) => Ok(Port(sh.(portString := sh.portString + [c])))
  }

  function NextPercentEncodedCharacter(sh: Shared, c: char): (r: Result<State>)
    requires sh.decoder.Valid()
    ensures r.Ok? ==> r.value.Valid()
  {
    var step := sh.decoder.Next(c);
    if step.1.Err? then Err(step.1.error)
    else if step.1.value == None then Ok(PercentEncodedCharacter(sh.(decoder := step.0)))
    else Ok(NotIpLiteral(sh.(decoder := step.0, host := sh.host + [step.1.value.value])))
  }

  function PortNumber(portString: string): Result<Option<u16>> {
    if portString == [] then Ok(None)
    else match Decimal.ParseUint(portString, 65535)
      case Some(n) => Ok(Some(n))
      case None => Err(IllegalPortNumber)
  }

  function Finalize(st: State): Result<HostAndPort> {
    match st
    case PercentEncodedCharacter(_) => Err(TruncatedHost)
    case Ipv6Address(_) => Err(TruncatedHost)
    case IpvFutureNumber(_) => Err(TruncatedHost)
    case IpvFutureBody(_) => Err(TruncatedHost)
    case _ =>
      var sh := st.shared;
      var host := if sh.hostIsRegName then LowerBytes(sh.host) else sh.host;
      var port :- PortNumber(sh.portString);
      Ok((host, port))
  }

  /** `try_fold(st, State::next)`. */
  function Run(st: State, s: string): (r: Result<State>)
    requires st.Valid()
    ensures r.Ok? ==> r.value.Valid()
    decreases |s|
  {
    if s == [] then Ok(st) else
      var st' :- Next(st, s[0]);
      Run(st', s[1..])
  }

  function Parse(s: string): Result<HostAndPort> {
    var (st, rest) := New(s);
    var st' :- Run(st, rest);
    Finalize(st')
  }

  // ---- Runs -------------------------------------------------------------------------------------

  lemma {:induction false} RunConcat(st: State, a: string, b: string)
    requires st.Valid()
    ensures Run(st, a + b) == match Run(st, a) case Ok(st') => Run(st', b) case Err(e) => Err(e)
    decreases |a|
  {
    hide Next;
    if a == [] {
      Empty(b);
    } else {
      assert (a + b)[0] == a[0] && (a + b)[1..] == a[1..] + b;
      var step := Next(st, a[0]);
      if step.Ok? {
        NextValid(st, a[0]);
        RunConcat(step.value, a[1..], b);
      }
    }
  }

  lemma NextValid(st: State, c: char)
    requires st.Valid()
    ensures Next(st, c).Ok? ==> Next(st, c).value.Valid()
  {
  }

  /** After the port delimiter everything is port text. */
  lemma {:induction false} RunPort(sh: Shared, s: string)
    requires sh.decoder == FRESH
    ensures Run(Port(sh), s) == Ok(Port(sh.(portString := sh.portString + s)))
    decreases |s|
  {
    if s == [] {
      Empty(sh.portString);
    } else {
      RunPort(sh.(portString := sh.portString + [s[0]]), s[1..]);
      Shift(sh.portString, s);
    }
  }

  /** One complete escape in a registered name. */
  lemma RunEscape(sh: Shared, h: string)
    requires sh.decoder == FRESH && |h| >= 3 && h[0] == '%' && h[1] in HEXDIG && h[2] in HEXDIG
    ensures Run(NotIpLiteral(sh), h) ==
            Run(NotIpLiteral(sh.(host := sh.host + [16 * HexValue(h[1]) + HexValue(h[2])])), h[3..])
  {
    var st := PercentEncodedCharacter(sh);
    var st' := PercentEncodedCharacter(sh.(decoder := Decoder(HexValue(h[1]), 1)));
    assert Run(NotIpLiteral(sh), h) == Run(st, h[1..]);
    assert h[1..][1..] == h[2..] && h[2..][1..] == h[3..];
    assert Run(st, h[1..]) == Run(st', h[2..]);
  }

  /** The state a registered name leaves the machine in, given its decoding. */
  function AfterRegName(sh: Shared, h: string, decoded: bytes): State {
    var sh' := sh.(host := sh.host + decoded);
    var tail := EscapeTail(h);
    if tail == [] then NotIpLiteral(sh')
    else if |tail| == 2 && tail[1] in HEXDIG then
      PercentEncodedCharacter(sh'.(decoder := Decoder(HexValue(tail[1]), 1)))
    else PercentEncodedCharacter(sh')
  }

  function RegNameResult(sh: Shared, h: string): Result<State> {
    var decoded :- Decode(h, REG_NAME, InHost);
    Ok(AfterRegName(sh, h, decoded))
  }

  /**
   The host machine agrees with the codec: on text without a colon it fails with the codec's error
   or collects the codec's bytes, and it ends inside an escape exactly when the text does.
   */
  lemma {:induction false} RunRegName(sh: Shared, h: string)
    requires sh.decoder == FRESH && ':' !in h
    ensures Run(NotIpLiteral(sh), h) == RegNameResult(sh, h)
    decreases |h|
  {
    hide Next, RegNameResult, Decode, EscapeTail;
    if h == [] {
      RegNameEmpty(sh);
    } else if h[0] == '%' && |h| >= 3 && h[1] in HEXDIG && h[2] in HEXDIG {
      RunEscape(sh, h);
      RunRegName(sh.(host := sh.host + [16 * HexValue(h[1]) + HexValue(h[2])]), h[3..]);
      RegNameEscape(sh, h);
    } else if h[0] == '%' {
      RunShortEscape(sh, h);
    } else if h[0] in REG_NAME {
      RunPlain(sh, h);
      RunRegName(Push(sh, h[0]), h[1..]);
      RegNamePlain(sh, h);
    } else {
      RunIllegal(sh, h);
    }
  }

  lemma RegNameEscape(sh: Shared, h: string)
    requires |h| >= 3 && h[0] == '%' && h[1] in HEXDIG && h[2] in HEXDIG
    ensures RegNameResult(sh, h) ==
            RegNameResult(sh.(host := sh.host + [16 * HexValue(h[1]) + HexValue(h[2])]), h[3..])
  {
    RegNameStep(sh, [16 * HexValue(h[1]) + HexValue(h[2])], h, h[3..]);
  }

  lemma RegNamePlain(sh: Shared, h: string)
    requires h != [] && h[0] in REG_NAME
    ensures RegNameResult(sh, h) == RegNameResult(Push(sh, h[0]), h[1..])
  {
    RegNameStep(sh, [LowByte(h[0])], h, h[1..]);
  }

  lemma RegNameEmpty(sh: Shared)
    ensures RegNameResult(sh, []) == Ok(NotIpLiteral(sh))
  {
    Empty(sh.host);
  }

  lemma RunPlain(sh: Shared, h: string)
    requires sh.decoder == FRESH && h != [] && h[0] in REG_NAME
    ensures h[0] != '%' && Run(NotIpLiteral(sh), h) == Run(NotIpLiteral(Push(sh, h[0])), h[1..])
  {
  }

  lemma RunIllegal(sh: Shared, h: string)
    requires sh.decoder == FRESH && h != [] && h[0] != '%' && h[0] != ':' && h[0] !in REG_NAME
    ensures Run(NotIpLiteral(sh), h) == RegNameResult(sh, h)
  {
  }

  lemma RegNameStep(sh: Shared, a: bytes, h: string, h': string)
    requires EscapeTail(h) == EscapeTail(h')
    requires Decode(h, REG_NAME, InHost) == Prepend(a, Decode(h', REG_NAME, InHost))
    ensures RegNameResult(sh, h) == RegNameResult(sh.(host := sh.host + a), h')
  {
    var rest := Decode(h', REG_NAME, InHost);
    if rest.Ok? {
      Assoc(sh.host, a, rest.value);
    }
  }

  lemma RunShortEscape(sh: Shared, h: string)
    requires sh.decoder == FRESH && h != [] && h[0] == '%'
    requires !(|h| >= 3 && h[1] in HEXDIG && h[2] in HEXDIG)
    ensures Run(NotIpLiteral(sh), h) == RegNameResult(sh, h)
  {
    Empty(sh.host);
    var st := PercentEncodedCharacter(sh);
    assert Run(NotIpLiteral(sh), h) == Run(st, h[1..]);
    if |h| >= 2 && h[1] in HEXDIG {
      var st' := PercentEncodedCharacter(sh.(decoder := Decoder(HexValue(h[1]), 1)));
      assert Run(st, h[1..]) == Run(st', h[1..][1..]);
      assert h[1..][1..] == h[2..];
    }
  }

  // ---- Closed forms -----------------------------------------------------------------------------

  /** The result once the host is known: `p` is empty or a colon and the port. */
  function WithPort(host: bytes, p: string): Result<HostAndPort> {
    if |p| <= 1 then Ok((host, None))
    else match Decimal.ParseUint(p[1..], 65535)
      case Some(n) => Ok((host, Some(n)))
      case None => Err(IllegalPortNumber)
  }

  function FinishRun(st: State, s: string): Result<HostAndPort>
    requires st.Valid()
  {
    var st' :- Run(st, s);
    Finalize(st')
  }

  lemma FinishPort(sh: Shared, p: string)
    requires sh.decoder == FRESH && sh.portString == []
    ensures FinishRun(Port(sh), p) == WithPort(if sh.hostIsRegName then LowerBytes(sh.host) else sh.host, ":" + p)
  {
    hide Run, LowerBytes;
    RunPort(sh, p);
    Empty(p);
    HeadTail(':', p);
  }

  /** After a complete host comes nothing, or a colon and the port. */
  lemma FinishHost(st: State, p: string)
    requires st.Valid() && (st.NotIpLiteral? || st.GarbageCheck?) && st.shared.portString == []
    requires p == [] || p[0] == ':'
    ensures FinishRun(st, p) ==
            WithPort(if st.shared.hostIsRegName then LowerBytes(st.shared.host) else st.shared.host, p)
  {
    if p != [] {
      assert p == ":" + p[1..];
      FinishPort(st.shared, p[1..]);
      assert FinishRun(st, p) == FinishRun(Port(st.shared), p[1..]);
    }
  }

  lemma FinishConcat(st: State, a: string, b: string)
    requires st.Valid()
    ensures Run(st, a).Ok? ==> FinishRun(st, a + b) == FinishRun(Run(st, a).value, b)
    ensures Run(st, a).Err? ==> FinishRun(st, a + b) == Err(Run(st, a).error)
  {
    hide Run;
    RunConcat(st, a, b);
  }

  /** Text that does not start with `[`: a registered name up to the first colon, then the port. */
  function ParseRegName(h: string, p: string): Result<HostAndPort> {
    var decoded :- Decode(h, REG_NAME, InHost);
    if EscapeTail(h) == [] then WithPort(LowerBytes(decoded), p)
    else if p == [] then Err(TruncatedHost)
    else Err(IllegalPercentEncoding)
  }

  lemma ParseNotIpLiteral(h: string, p: string)
    requires ':' !in h && (p == [] || p[0] == ':')
    requires h == [] || h[0] != '['
    ensures Parse(h + p) == ParseRegName(h, p)
  {
    hide Run, Decode, EscapeTail, LowerBytes, WithPort;
    var sh := START.(hostIsRegName := true);
    var st := NotIpLiteral(sh);
    assert Parse(h + p) == FinishRun(st, h + p);
    RunRegName(sh, h);
    FinishConcat(st, h, p);
    var decoded := Decode(h, REG_NAME, InHost);
    if decoded.Ok? {
      Empty(decoded.value);
      var st' := AfterRegName(sh, h, decoded.value);
      if EscapeTail(h) == [] {
        FinishHost(st', p);
      } else {
        FinishTruncated(st', p);
      }
    }
  }

  lemma FinishTruncated(st: State, p: string)
    requires st.Valid() && st.PercentEncodedCharacter?
    requires p == [] || p[0] == ':'
    ensures FinishRun(st, p) == if p == [] then Err(TruncatedHost) else Err(IllegalPercentEncoding)
  {
  }

  lemma {:induction false} RunIpv6(sh: Shared, a: string)
    requires sh.decoder == FRESH && ']' !in a
    ensures Run(State.Ipv6Address(sh), a) == Ok(State.Ipv6Address(sh.(ipv6Address := sh.ipv6Address + a)))
    decreases |a|
  {
    if a == [] {
      Empty(sh.ipv6Address);
    } else {
      RunIpv6(sh.(ipv6Address := sh.ipv6Address + [a[0]]), a[1..]);
      Shift(sh.ipv6Address, a);
    }
  }

  /** Text after a bracketed host. */
  function AfterBracket(host: bytes, after: string): Result<HostAndPort> {
    if after == [] || after[0] == ':' then WithPort(host, after) else Err(IllegalCharacter(InHost))
  }

  lemma FinishBracket(sh: Shared, after: string)
    requires sh.decoder == FRESH && sh.portString == [] && !sh.hostIsRegName
    ensures FinishRun(GarbageCheck(sh), after) == AfterBracket(sh.host, after)
  {
    if after == [] || after[0] == ':' {
      FinishHost(GarbageCheck(sh), after);
    }
  }

  function ParseBracketed(a: string, after: string): Result<HostAndPort> {
    var _ :- Ipv6.Validate(a);
    Ipv6.AcceptedIsAscii(a);
    AfterBracket(ToBytes(a), after)
  }

  lemma NewIpv6(a: string)
    requires a == [] || a[0] != 'v'
    ensures New("[" + a) == (State.Ipv6Address(START), a)
  {
    var s := "[" + a;
    assert s[0] == '[' && s[1..] == a;
    assert a != [] ==> s[1] == a[0];
  }

  /** `[`, an address up to the first `]`, and what follows it. */
  lemma ParseIpv6(a: string, after: string)
    requires ']' !in a && (a == [] || a[0] != 'v')
    ensures Parse("[" + a) == Err(TruncatedHost)
    ensures Parse("[" + a + "]" + after) == ParseBracketed(a, after)
  {
    hide Run, Ipv6.Validate, AfterBracket, ToBytes, Next;
    var st := State.Ipv6Address(START);
    var collected := START.(ipv6Address := a);
    RunIpv6(START, a);
    Empty(a);
    NewIpv6(a);
    assert Parse("[" + a) == FinishRun(st, a);
    var s := "[" + a + "]" + after;
    Assoc("[" + a, "]", after);
    Assoc("[", a, "]" + after);
    NewIpv6(a + ("]" + after));
    assert Parse(s) == FinishRun(st, a + ("]" + after));
    FinishConcat(st, a, "]" + after);
    FinishIpv6(collected, after);
  }

  lemma FinishIpv6(sh: Shared, after: string)
    requires sh.decoder == FRESH && sh.portString == [] && !sh.hostIsRegName
    ensures FinishRun(State.Ipv6Address(sh), "]" + after) == ParseBracketed(sh.ipv6Address, after)
  {
    hide Ipv6.Validate, AfterBracket;
    HeadTail(']', after);
    if Ipv6.Validate(sh.ipv6Address).Ok? {
      Ipv6.AcceptedIsAscii(sh.ipv6Address);
      FinishBracket(sh.(host := ToBytes(sh.ipv6Address)), after);
    }
  }

  // ---- IPvFuture --------------------------------------------------------------------------------

  lemma LiteralsAreAscii(s: string)
    ensures AllIn(s, HEXDIG) ==> IsAscii(s)
    ensures AllIn(s, IPV_FUTURE_LAST_PART) ==> IsAscii(s)
  {
  }

  lemma {:induction false} RunFutureNumber(sh: Shared, n: string)
    requires sh.decoder == FRESH && AllIn(n, HEXDIG) && IsAscii(n)
    ensures Run(IpvFutureNumber(sh), n) == Ok(IpvFutureNumber(sh.(host := sh.host + ToBytes(n))))
    decreases |n|
  {
    if n == [] {
      Empty(sh.host);
    } else {
      RunFutureNumber(Push(sh, n[0]), n[1..]);
      assert ToBytes(n)[1..] == ToBytes(n[1..]);
      Shift(sh.host, ToBytes(n));
    }
  }

  lemma NextFutureBody(sh: Shared, c: char)
    requires sh.decoder == FRESH && c in IPV_FUTURE_LAST_PART && c as int < 128
    ensures Next(IpvFutureBody(sh), c) == Ok(IpvFutureBody(Push(sh, c)))
  {
  }

  lemma {:induction false} RunFutureBody(sh: Shared, b: string)
    requires sh.decoder == FRESH && AllIn(b, IPV_FUTURE_LAST_PART) && IsAscii(b)
    ensures Run(IpvFutureBody(sh), b) == Ok(IpvFutureBody(sh.(host := sh.host + ToBytes(b))))
    decreases |b|
  {
    hide Next;
    if b == [] {
      Empty(sh.host);
    } else {
      NextFutureBody(sh, b[0]);
      RunFutureBody(Push(sh, b[0]), b[1..]);
      assert ToBytes(b)[1..] == ToBytes(b[1..]);
      Shift(sh.host, ToBytes(b));
    }
  }

  /** What the body state makes of `u`. */
  function ParseFutureBody(host: bytes, u: string): Result<HostAndPort> {
    var m := Span(u, IPV_FUTURE_LAST_PART);
    LiteralsAreAscii(u[..m]);
    if m == |u| then Err(TruncatedHost)
    else if u[m] != ']' then Err(IllegalCharacter(InIpvFuture))
    else AfterBracket(host + ToBytes(u[..m]), u[m + 1..])
  }

  /** What the number state makes of `t`, the text after `[v`. */
  function ParseFuture(t: string): Result<HostAndPort> {
    var k := Span(t, HEXDIG);
    LiteralsAreAscii(t[..k]);
    if k == |t| || t[k] == ']' then Err(TruncatedHost)
    else if t[k] != '.' then Err(IllegalCharacter(InIpvFuture))
    else ParseFutureBody([118] + ToBytes(t[..k]) + [46], t[k + 1..])
  }

  lemma FinishFutureBody(sh: Shared, u: string)
    requires sh.decoder == FRESH && sh.portString == [] && !sh.hostIsRegName
    ensures FinishRun(IpvFutureBody(sh), u) == ParseFutureBody(sh.host, u)
  {
    hide AfterBracket, ToBytes;
    var m := Span(u, IPV_FUTURE_LAST_PART);
    var a, rest := u[..m], u[m..];
    assert u == a + rest;
    LiteralsAreAscii(a);
    RunFutureBody(sh, a);
    FinishConcat(IpvFutureBody(sh), a, rest);
    FinishFutureBodyEnd(sh.(host := sh.host + ToBytes(a)), rest);
    assert rest != [] ==> rest[1..] == u[m + 1..];
  }

  lemma FinishFutureBodyEnd(sh: Shared, rest: string)
    requires sh.decoder == FRESH && sh.portString == [] && !sh.hostIsRegName
    requires rest == [] || rest[0] !in IPV_FUTURE_LAST_PART
    ensures FinishRun(IpvFutureBody(sh), rest) ==
            if rest == [] then Err(TruncatedHost)
            else if rest[0] != ']' then Err(IllegalCharacter(InIpvFuture))
            else AfterBracket(sh.host, rest[1..])
  {
    if rest != [] && rest[0] == ']' {
      FinishBracket(sh, rest[1..]);
    }
  }

  lemma FinishFutureNumberEnd(sh: Shared, rest: string)
    requires sh.decoder == FRESH && sh.portString == [] && !sh.hostIsRegName
    requires rest == [] || rest[0] !in HEXDIG
    ensures FinishRun(IpvFutureNumber(sh), rest) ==
            if rest == [] || rest[0] == ']' then Err(TruncatedHost)
            else if rest[0] != '.' then Err(IllegalCharacter(InIpvFuture))
            else ParseFutureBody(sh.host + [46], rest[1..])
  {
    if rest != [] && rest[0] == '.' {
      FinishFutureBody(Push(sh, '.'), rest[1..]);
    }
  }

  lemma ParseIpvFuture(t: string)
    ensures Parse("[v" + t) == ParseFuture(t)
  {
    hide ParseFutureBody, ToBytes;
    var s := "[v" + t;
    assert s[0] == '[' && s[1] == 'v' && s[2..] == t;
    var sh := START.(host := [118]);
    var k := Span(t, HEXDIG);
    var n, rest := t[..k], t[k..];
    assert t == n + rest;
    LiteralsAreAscii(n);
    RunFutureNumber(sh, n);
    assert Parse(s) == FinishRun(IpvFutureNumber(sh), t);
    FinishConcat(IpvFutureNumber(sh), n, rest);
    FinishFutureNumberEnd(sh.(host := sh.host + ToBytes(n)), rest);
    assert rest != [] ==> rest[1..] == t[k + 1..];
  }

  // ---- The grammar parse_host_port accepts ------------------------------------------------------

  /** Nothing, a lone colon, or a colon and a u16 numeral (which Rust lets start with `+`). */
  ghost predicate PortText(p: string, port: Option<u16>) {
    || (p == [] && port == None)
    || (p == ":" && port == None)
    || (|p| > 1 && p[0] == ':' && port.Some? && Decimal.ParseUint(p[1..], 65535) == port)
  }

  /** reg-name: its characters and complete escapes spell the host, up to ASCII case. */
  ghost predicate RegName(h: string, host: bytes) {
    exists ts :: TokensAllowed(ts, REG_NAME) && h == Render(ts) && host == LowerBytes(Values(ts))
  }

  /** An IPv6 address in brackets, taken verbatim. */
  ghost predicate Ipv6Literal(h: string, host: bytes) {
    exists a :: h == "[" + a + "]" && Ipv6.Address(a) && IsAscii(a) && host == ToBytes(a)
  }

  ghost predicate FutureParts(h: string, host: bytes, n: string, b: string) {
    && h == "[v" + n + "." + b + "]"
    && AllIn(n, HEXDIG) && AllIn(b, IPV_FUTURE_LAST_PART) && IsAscii(n) && IsAscii(b)
    && host == [118] + ToBytes(n) + [46] + ToBytes(b)
  }

  /** `[v`, hexadecimal digits, a dot, a body and `]`; number and body may be empty. */
  ghost predicate FutureLiteral(h: string, host: bytes) {
    exists n, b :: FutureParts(h, host, n, b)
  }

  ghost predicate HostText(h: string, host: bytes) {
    RegName(h, host) || Ipv6Literal(h, host) || FutureLiteral(h, host)
  }

  ghost predicate HostPortText(s: string, host: bytes, port: Option<u16>) {
    exists h, p :: s == h + p && HostText(h, host) && PortText(p, port)
  }

  lemma WithPortText(known: bytes, p: string, host: bytes, port: Option<u16>)
    requires p == [] || p[0] == ':'
    ensures WithPort(known, p) == Ok((host, port)) <==> host == known && PortText(p, port)
  {
    assert p != [] && p[1..] == [] ==> p == ":";
  }

  lemma RegNameDecodes(h: string, host: bytes)
    ensures RegName(h, host) <==>
            Decode(h, REG_NAME, InHost).Ok? && EscapeTail(h) == [] &&
            host == LowerBytes(Decode(h, REG_NAME, InHost).value)
  {
    hide Decode, EscapeTail, LowerBytes;
    forall ts | TokensAllowed(ts, REG_NAME) && h == Render(ts)
      ensures Decode(h, REG_NAME, InHost) == Ok(Values(ts)) && EscapeTail(h) == []
    {
      DecodeRendered(ts, [], REG_NAME, InHost);
      Empty(h);
    }
    if Decode(h, REG_NAME, InHost).Ok? && EscapeTail(h) == [] {
      var ts := DecodedTokens(h, REG_NAME, InHost);
      Empty(Render(ts));
    }
  }

  /** Texts that do not start with `[`. */
  lemma RegNameAccepts(h: string, p: string, host: bytes, port: Option<u16>)
    requires ':' !in h && (p == [] || p[0] == ':') && (h == [] || h[0] != '[')
    ensures Parse(h + p) == Ok((host, port)) <==> RegName(h, host) && PortText(p, port)
  {
    hide Parse, PortText, RegName, Decode, EscapeTail, LowerBytes;
    ParseNotIpLiteral(h, p);
    RegNameDecodes(h, host);
    var decoded := Decode(h, REG_NAME, InHost);
    if decoded.Ok? {
      WithPortText(LowerBytes(decoded.value), p, host, port);
    }
  }

  lemma BracketAccepts(known: bytes, after: string, host: bytes, port: Option<u16>)
    ensures AfterBracket(known, after) == Ok((host, port)) <==> host == known && PortText(after, port)
  {
    if after == [] || after[0] == ':' {
      WithPortText(known, after, host, port);
    }
  }

  lemma RegNameAvoids(h: string, host: bytes)
    requires RegName(h, host)
    ensures ':' !in h && '[' !in h
  {
    hide LowerBytes, Values, Render;
    var ts :| TokensAllowed(ts, REG_NAME) && h == Render(ts) && host == LowerBytes(Values(ts));
    RenderAvoids(ts, REG_NAME, ':');
    RenderAvoids(ts, REG_NAME, '[');
  }

  lemma RegNameComplete(h: string, p: string, host: bytes, port: Option<u16>)
    requires RegName(h, host) && PortText(p, port)
    ensures Parse(h + p) == Ok((host, port))
  {
    hide Parse, LowerBytes, Values;
    RegNameAvoids(h, host);
    RegNameAccepts(h, p, host, port);
  }

  lemma Ipv6Complete(h: string, p: string, host: bytes, port: Option<u16>)
    ensures Ipv6Literal(h, host) && PortText(p, port) ==> Parse(h + p) == Ok((host, port))
  {
    hide Parse, Ipv6.Address, Ipv6.Validate, PortText, AfterBracket;
    if Ipv6Literal(h, host) && PortText(p, port) {
      var a :| h == "[" + a + "]" && Ipv6.Address(a) && IsAscii(a) && host == ToBytes(a);
      Ipv6.ValidateAccepts(a);
      Ipv6.AcceptedIsAscii(a);
      assert forall k | 0 <= k < |a| :: Ipv6.AddressCharacter(a[k]) && a[k] != ']' && a[k] != 'v';
      ParseIpv6(a, p);
      BracketAccepts(ToBytes(a), p, host, port);
    }
  }

  /** The text after `[v` of an IPvFuture literal followed by `p`. */
  function FutureRest(n: string, b: string, p: string): string {
    n + ("." + (b + ("]" + p)))
  }

  lemma FutureRestText(n: string, b: string, p: string)
    ensures "[v" + n + "." + b + "]" + p == "[v" + FutureRest(n, b, p)
  {
    Assoc("[v" + n + "." + b, "]", p);
    Assoc("[v" + n + ".", b, "]" + p);
    Assoc("[v" + n, ".", b + ("]" + p));
    Assoc("[v", n, "." + (b + ("]" + p)));
  }

  lemma ParseFutureRest(n: string, b: string, p: string)
    requires AllIn(n, HEXDIG) && AllIn(b, IPV_FUTURE_LAST_PART) && IsAscii(n) && IsAscii(b)
    ensures ParseFuture(FutureRest(n, b, p)) == AfterBracket([118] + ToBytes(n) + [46] + ToBytes(b), p)
  {
    hide AfterBracket, ToBytes;
    var v := "]" + p;
    var u := b + v;
    SpanConcat(n, "." + u, HEXDIG);
    HeadTail('.', u);
    DropPrefix(n + ".", u);
    Assoc(n, ".", u);
    SpanConcat(b, v, IPV_FUTURE_LAST_PART);
    DropPrefix(b + "]", p);
    Assoc(b, "]", p);
  }

  lemma SpanConcat(a: string, b: string, allowed: set<char>)
    requires AllIn(a, allowed) && b != [] && b[0] !in allowed
    ensures Span(a + b, allowed) == |a| && (a + b)[..|a|] == a && (a + b)[|a|] == b[0]
  {
    DropPrefix(a, b);
    SpanAt(a + b, allowed, |a|);
  }

  lemma FutureComplete(h: string, p: string, host: bytes, port: Option<u16>)
    requires FutureLiteral(h, host) && PortText(p, port)
    ensures Parse(h + p) == Ok((host, port))
  {
    hide Parse, PortText, AfterBracket, ToBytes, FutureRest, ParseFuture;
    var n, b :| FutureParts(h, host, n, b);
    FutureRestText(n, b, p);
    ParseIpvFuture(FutureRest(n, b, p));
    ParseFutureRest(n, b, p);
    BracketAccepts(host, p, host, port);
  }

  lemma SpanAt(s: string, allowed: set<char>, i: nat)
    requires i < |s| && s[i] !in allowed && AllIn(s[..i], allowed)
    ensures Span(s, allowed) == i
  {
    assert forall k | 0 <= k < i :: s[k] == s[..i][k];
  }

  lemma Ipv6Sound(s: string, host: bytes, port: Option<u16>)
    requires s != [] && s[0] == '[' && (|s| == 1 || s[1] != 'v') && Parse(s) == Ok((host, port))
    ensures HostPortText(s, host, port)
  {
    hide Parse, Ipv6.Validate, Ipv6.Address, PortText, AfterBracket, ToBytes;
    var rest := s[1..];
    assert s == "[" + rest;
    var j := Find(rest, {']'});
    var a := rest[..j];
    if j == |rest| {
      assert rest == a;
      ParseIpv6(a, []);
    } else {
      var p := rest[j + 1..];
      assert s == "[" + a + "]" + p;
      ParseIpv6(a, p);
      Ipv6.ValidateAccepts(a);
      Ipv6.AcceptedIsAscii(a);
      BracketAccepts(ToBytes(a), p, host, port);
      assert Ipv6Literal("[" + a + "]", host);
    }
  }

  lemma FutureCut(t: string) returns (n: string, b: string, p: string)
    requires ParseFuture(t).Ok?
    ensures t == FutureRest(n, b, p)
    ensures AllIn(n, HEXDIG) && AllIn(b, IPV_FUTURE_LAST_PART) && IsAscii(n) && IsAscii(b)
  {
    hide AfterBracket, ToBytes;
    var k := Span(t, HEXDIG);
    n := t[..k];
    var u := t[k + 1..];
    LiteralsAreAscii(n);
    b, p := FutureBodyCut([118] + ToBytes(n) + [46], u);
    CutAt(t, k);
    Assoc(n, ".", u);
  }

  lemma FutureBodyCut(host: bytes, u: string) returns (b: string, p: string)
    requires ParseFutureBody(host, u).Ok?
    ensures u == b + ("]" + p) && AllIn(b, IPV_FUTURE_LAST_PART) && IsAscii(b)
  {
    var m := Span(u, IPV_FUTURE_LAST_PART);
    b, p := u[..m], u[m + 1..];
    LiteralsAreAscii(b);
    CutAt(u, m);
    Assoc(b, "]", p);
  }

  lemma FutureSound(t: string, host: bytes, port: Option<u16>)
    requires Parse("[v" + t) == Ok((host, port))
    ensures HostPortText("[v" + t, host, port)
  {
    hide Parse, PortText, AfterBracket, ToBytes, FutureRest, ParseFuture;
    ParseIpvFuture(t);
    var n, b, p := FutureCut(t);
    ParseFutureRest(n, b, p);
    BracketAccepts([118] + ToBytes(n) + [46] + ToBytes(b), p, host, port);
    FutureRestText(n, b, p);
    assert FutureParts("[v" + n + "." + b + "]", host, n, b);
  }

  /**
   `parse_host_port` accepts exactly a registered name, a bracketed IPv6 address or an IPvFuture
   literal, followed by nothing or by a port, and returns that host and port.
   */
  lemma ParseAccepts(s: string, host: bytes, port: Option<u16>)
    ensures Parse(s) == Ok((host, port)) <==> HostPortText(s, host, port)
  {
    hide Parse, RegName, Ipv6Literal, FutureLiteral, PortText;
    forall h, p | s == h + p && HostText(h, host) && PortText(p, port)
      ensures Parse(s) == Ok((host, port))
    {
      if RegName(h, host) {
        RegNameComplete(h, p, host, port);
      } else if Ipv6Literal(h, host) {
        Ipv6Complete(h, p, host, port);
      } else {
        FutureComplete(h, p, host, port);
      }
    }
    if Parse(s) == Ok((host, port)) {
      if |s| >= 2 && s[0] == '[' && s[1] == 'v' {
        assert s == "[v" + s[2..];
        FutureSound(s[2..], host, port);
      } else if |s| >= 1 && s[0] == '[' {
        Ipv6Sound(s, host, port);
      } else {
        var k := Find(s, {':'});
        assert s == s[..k] + s[k..];
        RegNameAccepts(s[..k], s[k..], host, port);
      }
    }
  }
}
