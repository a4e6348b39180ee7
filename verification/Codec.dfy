/**
 Percent decoding and encoding of URI elements (src/codec.rs; section 2.1 of
 RFC 3986).
 */
module Codec {
  import opened Errors
  import opened Sequences
  import opened CharacterClasses
  import opened PercentDecoder

  /** `c as u8`. */
  function LowByte(c: char): byte {
    c as int % 256
  }

  function Prepend(b: bytes, r: Result<bytes>): Result<bytes> {
    match r
    case Ok(rest) => Ok(b + rest)
    case Err(e) => Err(e)
  }

  lemma PrependConcat(a: bytes, b: bytes, r: Result<bytes>)
    ensures Prepend(a, Prepend(b, r)) == Prepend(a + b, r)
    ensures Prepend([], r) == r
  {
    if r.Ok? {
      Assoc(a, b, r.value);
      Empty(r.value);
    }
  }

  /** What `decode_element` computes, one allowed character or one escape at a time. */
  function Decode(s: string, allowed: set<char>, context: Context): Result<bytes> {
    if s == [] then Ok([])
    else if s[0] == '%' then
      if |s| == 1 then Ok([])
      else if s[1] !in HEXDIG then Err(IllegalPercentEncoding)
      else if |s| == 2 then Ok([])
      else if s[2] !in HEXDIG then Err(IllegalPercentEncoding)
      else Prepend([16 * HexValue(s[1]) + HexValue(s[2])], Decode(s[3..], allowed, context))
    else if s[0] in allowed then Prepend([LowByte(s[0])], Decode(s[1..], allowed, context))
    else Err(IllegalCharacter(context))
  }

  /** What is left of `s` from a last escape that is cut short; empty if every escape is complete. */
  function EscapeTail(s: string): string {
    if s == [] then []
    else if s[0] != '%' then EscapeTail(s[1..])
    else if |s| < 3 then s
    else EscapeTail(s[3..])
  }

  /** The rest of the decoding loop, given its flag and its decoder. */
  function DecodeFrom(decodingPec: bool, decoder: Decoder, s: string, allowed: set<char>, context: Context)
    : Result<bytes>
    requires decoder.Valid() && (!decodingPec ==> decoder == FRESH)
    decreases |s|
  {
    if s == [] then Ok([])
    else if decodingPec then
      var step := decoder.Next(s[0]);
      if step.1.Err? then Err(step.1.error)
      else if step.1.value == None then DecodeFrom(true, step.0, s[1..], allowed, context)
      else Prepend([step.1.value.value], DecodeFrom(false, FRESH, s[1..], allowed, context))
    else if s[0] == '%' then DecodeFrom(true, decoder, s[1..], allowed, context)
    else if s[0] in allowed then Prepend([LowByte(s[0])], DecodeFrom(false, decoder, s[1..], allowed, context))
    else Err(IllegalCharacter(context))
  }

  /** The loop, character by character, computes `Decode`. */
  lemma {:induction false} DecodeFromIsDecode(s: string, allowed: set<char>, context: Context)
    ensures DecodeFrom(false, FRESH, s, allowed, context) == Decode(s, allowed, context)
    decreases |s|
  {
    if s != [] {
      if s[0] == '%' {
        DecodeFromEscape(s[1..], allowed, context);
        if |s| >= 3 {
          assert s[1..][2..] == s[3..];
          DecodeFromIsDecode(s[3..], allowed, context);
        }
      } else {
        DecodeFromIsDecode(s[1..], allowed, context);
      }
    }
  }

  /** What the loop makes of the text after a `%`. */
  lemma DecodeFromEscape(t: string, allowed: set<char>, context: Context)
    ensures DecodeFrom(true, FRESH, t, allowed, context) ==
            if t == [] then Ok([])
            else if t[0] !in HEXDIG then Err(IllegalPercentEncoding)
            else if |t| == 1 then Ok([])
            else if t[1] !in HEXDIG then Err(IllegalPercentEncoding)
            else Prepend([16 * HexValue(t[0]) + HexValue(t[1])], DecodeFrom(false, FRESH, t[2..], allowed, context))
  {
    if t != [] && t[0] in HEXDIG {
      var d := Decoder(HexValue(t[0]), 1);
      assert DecodeFrom(true, FRESH, t, allowed, context) == DecodeFrom(true, d, t[1..], allowed, context);
      assert |t| >= 2 ==> t[1..][1..] == t[2..];
    }
  }

  /** The decoding loop: a flag says whether the decoder object is in the middle of an escape. */
  method DecodeElement(element: string, allowed: set<char>, context: Context) returns (r: Result<bytes>)
    ensures r == Decode(element, allowed, context)
  {
    hide Decode;
    var decodingPec := false;
    var decoder := new PercentEncodedCharacterDecoder();
    var out: bytes := [];
    DecodeFromIsDecode(element, allowed, context);
    PrependConcat([], [], Decode(element, allowed, context));
    Empty(element);
    for i := 0 to |element|
      invariant decoder.Valid() && (!decodingPec ==> decoder.Value() == FRESH)
      invariant Decode(element, allowed, context) ==
                Prepend(out, DecodeFrom(decodingPec, decoder.Value(), element[i..], allowed, context))
    {
      var c := element[i];
      ghost var rest := element[i + 1..];
      assert element[i..][0] == c && element[i..][1..] == rest;
      if decodingPec {
        var step := decoder.Next(c);
        if step.Err? {
          return Err(step.error);
        }
        if step.value.Some? {
          decodingPec := false;
          PrependConcat(out, [step.value.value], DecodeFrom(false, FRESH, rest, allowed, context));
          out := out + [step.value.value];
        }
      } else if c == '%' {
        decodingPec := true;
      } else if c in allowed {
        PrependConcat(out, [LowByte(c)], DecodeFrom(false, FRESH, rest, allowed, context));
        out := out + [LowByte(c)];
      } else {
        return Err(IllegalCharacter(context));
      }
    }
    Empty(out);
    return Ok(out);
  }

  /** One byte as `encode_element` writes it. */
  function EncodeByte(b: byte, allowed: set<char>): string {
    if b as char in allowed then [b as char] else ['%', HexChar(b / 16), HexChar(b % 16)]
  }

  function Encode(element: bytes, allowed: set<char>): string {
    if element == [] then [] else EncodeByte(element[0], allowed) + Encode(element[1..], allowed)
  }

  method EncodeElement(element: bytes, allowed: set<char>) returns (encoding: string)
    ensures encoding == Encode(element, allowed)
  {
    encoding := [];
    Empty(element);
    Empty(Encode(element, allowed));
    for i := 0 to |element|
      invariant encoding + Encode(element[i..], allowed) == Encode(element, allowed)
    {
      hide Encode;
      var ci := element[i];
      EncodeAt(element, i, allowed);
      Assoc(encoding, EncodeByte(ci, allowed), Encode(element[i + 1..], allowed));
      if ci as char in allowed {
        encoding := encoding + [ci as char];
      } else {
        encoding := encoding + ['%', HexChar(ci / 16), HexChar(ci % 16)];
      }
    }
    Empty(encoding);
  }

  lemma EncodeAt(element: bytes, i: nat, allowed: set<char>)
    requires i < |element|
    ensures Encode(element[i..], allowed) == EncodeByte(element[i], allowed) + Encode(element[i + 1..], allowed)
  {
    assert element[i..][1..] == element[i + 1..];
  }

  // ---- The grammar decode_element accepts -------------------------------------------------------

  datatype Token = Plain(c: char) | Escape(hi: char, lo: char)

  predicate TokenAllowed(t: Token, allowed: set<char>) {
    match t
    case Plain(c) => c in allowed && c != '%'
    case Escape(hi, lo) => hi in HEXDIG && lo in HEXDIG
  }

  ghost predicate TokensAllowed(ts: seq<Token>, allowed: set<char>) {
    forall i | 0 <= i < |ts| :: TokenAllowed(ts[i], allowed)
  }

  function TokenText(t: Token): string {
    match t
    case Plain(c) => [c]
    case Escape(hi, lo) => ['%', hi, lo]
  }

  function TokenByte(t: Token): byte {
    match t
    case Plain(c) => LowByte(c)
    case Escape(hi, lo) => if hi in HEXDIG && lo in HEXDIG then 16 * HexValue(hi) + HexValue(lo) else 0
  }

  function Render(ts: seq<Token>): string {
    if ts == [] then [] else TokenText(ts[0]) + Render(ts[1..])
  }

  function Values(ts: seq<Token>): bytes {
    if ts == [] then [] else [TokenByte(ts[0])] + Values(ts[1..])
  }

  predicate Unfinished(tail: string) {
    tail == [] || tail == "%" || (|tail| == 2 && tail[0] == '%' && tail[1] in HEXDIG)
  }

  lemma DecodeToken(t: Token, rest: string, allowed: set<char>, context: Context)
    requires TokenAllowed(t, allowed)
    ensures Decode(TokenText(t) + rest, allowed, context) == Prepend([TokenByte(t)], Decode(rest, allowed, context))
    ensures EscapeTail(TokenText(t) + rest) == EscapeTail(rest)
  {
    DropPrefix(TokenText(t), rest);
  }

  /** An unfinished escape, alone, decodes to nothing; and so does nothing else. */
  lemma DecodeUnfinished(s: string, allowed: set<char>, context: Context)
    ensures Decode(s, allowed, context) == Ok([]) <==> Unfinished(s)
    ensures Unfinished(s) ==> EscapeTail(s) == s
    ensures (s == [] || (s[0] == '%' && |s| < 3)) && Decode(s, allowed, context).Ok? ==> Unfinished(s)
  {
  }

  lemma {:induction false} DecodeRendered(ts: seq<Token>, tail: string, allowed: set<char>, context: Context)
    requires TokensAllowed(ts, allowed) && Unfinished(tail)
    ensures Decode(Render(ts) + tail, allowed, context) == Ok(Values(ts))
    ensures EscapeTail(Render(ts) + tail) == tail
  {
    hide Decode, EscapeTail, TokenText, TokenByte, Unfinished, TokenAllowed;
    if ts == [] {
      Empty(tail);
      DecodeUnfinished(tail, allowed, context);
    } else {
      DecodeRendered(ts[1..], tail, allowed, context);
      Assoc(TokenText(ts[0]), Render(ts[1..]), tail);
      DecodeToken(ts[0], Render(ts[1..]) + tail, allowed, context);
    }
  }

  lemma DecodeFirst(s: string, allowed: set<char>, context: Context) returns (t: Token, rest: string)
    requires s != [] && (s[0] == '%' ==> |s| >= 3)
    requires Decode(s, allowed, context).Ok?
    ensures |rest| < |s| && s == TokenText(t) + rest && TokenAllowed(t, allowed)
    ensures EscapeTail(s) == EscapeTail(rest)
    ensures Decode(s, allowed, context) == Prepend([TokenByte(t)], Decode(rest, allowed, context))
  {
    if s[0] == '%' {
      t, rest := Escape(s[1], s[2]), s[3..];
    } else {
      t, rest := Plain(s[0]), s[1..];
    }
  }

  lemma {:induction false} DecodedTokens(s: string, allowed: set<char>, context: Context) returns (ts: seq<Token>)
    requires Decode(s, allowed, context).Ok?
    ensures TokensAllowed(ts, allowed) && Unfinished(EscapeTail(s))
    ensures s == Render(ts) + EscapeTail(s)
    ensures Decode(s, allowed, context) == Ok(Values(ts))
    decreases |s|
  {
    hide Decode, EscapeTail, TokenText, TokenByte, TokenAllowed, Unfinished;
    if s == [] || (s[0] == '%' && |s| < 3) {
      DecodeUnfinished(s, allowed, context);
      Empty(s);
      ts := [];
    } else {
      var t, rest := DecodeFirst(s, allowed, context);
      var ts' := DecodedTokens(rest, allowed, context);
      ts := [t] + ts';
      HeadTail(t, ts');
      Assoc(TokenText(t), Render(ts'), EscapeTail(rest));
    }
  }

  /** Allowed characters and complete escapes that spell `b`, and then at most an unfinished escape. */
  ghost predicate ElementText(s: string, allowed: set<char>, b: bytes) {
    exists ts, tail ::
      TokensAllowed(ts, allowed) && Unfinished(tail) && s == Render(ts) + tail && b == Values(ts)
  }

  /**
   `decode_element` accepts exactly the texts made of allowed characters and complete escapes,
   optionally followed by one escape cut short by the end of the text, and returns the bytes of
   the complete part.
   */
  lemma DecodeAccepts(s: string, allowed: set<char>, context: Context, b: bytes)
    ensures Decode(s, allowed, context) == Ok(b) <==> ElementText(s, allowed, b)
  {
    if Decode(s, allowed, context) == Ok(b) {
      var ts := DecodedTokens(s, allowed, context);
      assert s == Render(ts) + EscapeTail(s);
    }
    forall ts, tail |
      TokensAllowed(ts, allowed) && Unfinished(tail) && s == Render(ts) + tail && b == Values(ts)
      ensures Decode(s, allowed, context) == Ok(b)
    {
      DecodeRendered(ts, tail, allowed, context);
    }
  }

  lemma {:induction false} RenderAvoids(ts: seq<Token>, allowed: set<char>, d: char)
    requires TokensAllowed(ts, allowed) && d !in allowed && d != '%' && d !in HEXDIG
    ensures d !in Render(ts)
  {
    if ts != [] {
      assert TokenAllowed(ts[0], allowed);
      RenderAvoids(ts[1..], allowed, d);
    }
  }

  lemma ElementAvoids(s: string, allowed: set<char>, b: bytes, d: char)
    requires d !in allowed && d != '%' && d !in HEXDIG
    ensures ElementText(s, allowed, b) ==> d !in s
  {
    if ElementText(s, allowed, b) {
      var ts, tail :|
        TokensAllowed(ts, allowed) && Unfinished(tail) && s == Render(ts) + tail && b == Values(ts);
      RenderAvoids(ts, allowed, d);
    }
  }

  // ---- Text without an unfinished escape --------------------------------------------------------

  /** Allowed characters and complete escapes. */
  ghost predicate Complete(s: string, allowed: set<char>) {
    exists ts :: TokensAllowed(ts, allowed) && s == Render(ts)
  }

  lemma CompleteDecodes(s: string, allowed: set<char>, context: Context)
    ensures Complete(s, allowed) <==> Decode(s, allowed, context).Ok? && EscapeTail(s) == []
  {
    hide Decode, EscapeTail;
    if Complete(s, allowed) {
      var ts :| TokensAllowed(ts, allowed) && s == Render(ts);
      DecodeRendered(ts, [], allowed, context);
      Empty(s);
    }
    if Decode(s, allowed, context).Ok? && EscapeTail(s) == [] {
      var ts := DecodedTokens(s, allowed, context);
      Empty(Render(ts));
    }
  }

  lemma CompleteAvoids(s: string, allowed: set<char>, ds: set<char>)
    requires ds !! allowed && '%' !in ds && ds !! HEXDIG
    ensures Complete(s, allowed) ==> Avoids(s, ds)
  {
    if Complete(s, allowed) {
      var ts :| TokensAllowed(ts, allowed) && s == Render(ts);
      forall d | d in ds
        ensures d !in s
      {
        RenderAvoids(ts, allowed, d);
      }
    }
  }

  lemma {:induction false} PlainComplete(s: string, allowed: set<char>)
    requires AllIn(s, allowed) && '%' !in allowed
    ensures Complete(s, allowed)
  {
    if s == [] {
      assert s == Render([]);
    } else {
      PlainComplete(s[1..], allowed);
      var ts :| TokensAllowed(ts, allowed) && s[1..] == Render(ts);
      var all := [Plain(s[0])] + ts;
      HeadTail(Plain(s[0]), ts);
      Uncons(s);
      assert TokensAllowed(all, allowed) && s == Render(all);
    }
  }

  // ---- Encoding ---------------------------------------------------------------------------------

  /** Encoding writes tokens of its own set, upper-case in its escapes, that spell the bytes. */
  lemma {:induction false} EncodeTokens(b: bytes, allowed: set<char>) returns (ts: seq<Token>)
    requires '%' !in allowed
    ensures TokensAllowed(ts, allowed) && Render(ts) == Encode(b, allowed) && Values(ts) == b
  {
    if b == [] {
      ts := [];
    } else {
      var rest := EncodeTokens(b[1..], allowed);
      var t := if b[0] as char in allowed then Plain(b[0] as char) else Escape(HexChar(b[0] / 16), HexChar(b[0] % 16));
      ts := [t] + rest;
      HeadTail(t, rest);
    }
  }

  /**
   Decoding undoes encoding, also with a larger set on the decoding side (the query is printed
   without `+` but parsed with it), and the encoding has no unfinished escape.
   */
  lemma {:induction false} DecodeEncode(b: bytes, printed: set<char>, parsed: set<char>, context: Context)
    requires '%' !in printed && printed <= parsed
    ensures Decode(Encode(b, printed), parsed, context) == Ok(b)
    ensures EscapeTail(Encode(b, printed)) == []
  {
    var ts := EncodeTokens(b, printed);
    DecodeRendered(ts, [], parsed, context);
    Empty(Render(ts));
  }

  /** The encoding contains only allowed characters, `%` and upper-case hexadecimal digits. */
  lemma {:induction false} EncodeCharacters(b: bytes, allowed: set<char>)
    ensures forall i | 0 <= i < |Encode(b, allowed)| ::
              var c := Encode(b, allowed)[i];
              c in allowed || c == '%' || (c in HEXDIG && c !in {'a', 'b', 'c', 'd', 'e', 'f'})
  {
    if b != [] {
      EncodeCharacters(b[1..], allowed);
    }
  }

  lemma EncodeAvoids(b: bytes, allowed: set<char>, ds: set<char>)
    requires ds !! allowed && '%' !in ds && ds !! HEXDIG
    ensures Avoids(Encode(b, allowed), ds)
  {
    EncodeCharacters(b, allowed);
  }

  /** A character that is written raw, and never part of an escape, is printed where its byte is. */
  lemma {:induction false} EncodeContains(b: bytes, allowed: set<char>, c: char)
    requires c in allowed && c != '%' && c !in HEXDIG && c as int < 256
    ensures c in Encode(b, allowed) <==> c as int in b
  {
    if b != [] {
      EncodeContains(b[1..], allowed, c);
    }
  }

  const COLON: byte := 58

  const SLASH: byte := 47

  lemma EncodeByteBefore(b: byte, allowed: set<char>)
    requires ':' in allowed && '/' in allowed
    ensures Before(EncodeByte(b, allowed), ':', '/') <==> b == COLON
    ensures '/' in EncodeByte(b, allowed) <==> b == SLASH
  {
    var e := EncodeByte(b, allowed);
    if |e| > 1 {
      BeforeAt(e, ':', '/', |e|);
    }
  }

  /** Encoding keeps whether a colon comes before the first slash. */
  lemma {:induction false} EncodeBefore(b: bytes, allowed: set<char>)
    requires ':' in allowed && '/' in allowed
    ensures Before(Encode(b, allowed), ':', '/') <==> Before(b, COLON, SLASH)
  {
    hide EncodeByte;
    if b != [] {
      EncodeBefore(b[1..], allowed);
      EncodeByteBefore(b[0], allowed);
      BeforeConcat(EncodeByte(b[0], allowed), Encode(b[1..], allowed), ':', '/');
    }
  }

  // ---- Bytes in text that has not been decoded --------------------------------------------------

  /** The text starts with the byte `x`, as a character or as an escape. */
  predicate SpellsFirst(t: string, x: byte) {
    && t != []
    && (|| t[0] as int == x
        || (|t| >= 3 && t[0] == '%' && t[1] in HEXDIG && t[2] in HEXDIG && 16 * HexValue(t[1]) + HexValue(t[2]) == x))
  }

  /** The byte `x`, as a character or as an escape. */
  predicate Spells(t: string, x: byte) {
    t != [] && (SpellsFirst(t, x) || Spells(t[1..], x))
  }

  /** The byte `x`, and no `y` before it. */
  predicate SpellsBefore(t: string, x: byte, y: byte) {
    t != [] && !SpellsFirst(t, y) && (SpellsFirst(t, x) || SpellsBefore(t[1..], x, y))
  }

  predicate IsMark(x: byte) {
    x as char !in HEXDIG && x as char != '%'
  }

  /** The digits of an escape spell no byte of their own. */
  lemma SpellsSkip(t: string, x: byte, y: byte, n: nat)
    requires IsMark(x) && IsMark(y) && n <= 2 && n <= |t|
    requires forall i | 0 <= i < n :: t[i] in HEXDIG
    ensures Spells(t, x) <==> Spells(t[n..], x)
    ensures SpellsBefore(t, x, y) <==> SpellsBefore(t[n..], x, y)
  {
    Empty(t);
    if n == 2 {
      assert t[1..][1..] == t[2..];
    }
  }

  /** Decoding finds exactly the bytes the text spells, in their order. */
  lemma {:induction false} DecodedSpells(t: string, allowed: set<char>, context: Context, x: byte, y: byte)
    requires IsMark(x) && IsMark(y) && forall c | c in allowed :: c as int < 256
    requires Decode(t, allowed, context).Ok?
    ensures x in Decode(t, allowed, context).value <==> Spells(t, x)
    ensures Before(Decode(t, allowed, context).value, x, y) <==> SpellsBefore(t, x, y)
  {
    if t != [] {
      var n := if t[0] == '%' then 3 else 1;
      if t[0] == '%' {
        SpellsSkip(t[1..], x, y, if |t| < 3 then |t| - 1 else 2);
      }
      if |t| >= n {
        assert n == 3 ==> t[1..][2..] == t[n..];
        DecodedSpells(t[n..], allowed, context, x, y);
        var b := Decode(t[n..], allowed, context).value;
        assert Decode(t, allowed, context).value[1..] == b;
      }
    }
  }

  /** An escape does not reach into text that goes on with another character. */
  lemma {:induction false} SpellsConcat(a: string, b: string, x: byte, y: byte)
    requires IsMark(x) && IsMark(y) && x != y && (b == [] || b[0] !in HEXDIG)
    ensures SpellsBefore(a + b, x, y) <==> SpellsBefore(a, x, y) || (!Spells(a, y) && SpellsBefore(b, x, y))
  {
    if a == [] {
      Empty(b);
    } else {
      assert (a + b)[1..] == a[1..] + b;
      SpellsConcat(a[1..], b, x, y);
    }
  }

  // ---- Length -----------------------------------------------------------------------------------

  /** Re-encoding with the set used for decoding never lengthens the text. */
  lemma {:induction false} ReencodeNotLonger(s: string, allowed: set<char>, context: Context)
    requires forall c | c in allowed :: c as int < 256
    requires Decode(s, allowed, context).Ok?
    ensures |Encode(Decode(s, allowed, context).value, allowed)| <= |s|
  {
    if s != [] && !(s[0] == '%' && |s| < 3) {
      var n := if s[0] == '%' then 3 else 1;
      ReencodeNotLonger(s[n..], allowed, context);
      var b := Decode(s, allowed, context).value;
      assert b[1..] == Decode(s[n..], allowed, context).value;
    }
  }
}
