/**
 The characters of RFC 3986 written out, and what the sets and the conversions of the model are on them.
 */
module Literals {
  import opened Sequences
  import opened CharacterClasses
  import opened PercentDecoder
  import opened Ascii
  import opened Errors
  import opened Codec

  const UPPER := "ABCDEFGHIJKLMNOPQRSTUVWXYZ"

  const LOWER := "abcdefghijklmnopqrstuvwxyz"

  const DIGITS := "0123456789"

  const UPPER_HEX := "0123456789ABCDEF"

  const LOWER_HEX := "0123456789abcdef"

  const UNRESERVED_MARKS := "-._~"

  const SUB_DELIM_MARKS := "!$&'()*+,;="

  // ---- Letters and digits -----------------------------------------------------------------------

  lemma UpperAt(i: nat)
    requires i < 26
    ensures UPPER[i] as int == 65 + i && LOWER[i] as int == 97 + i
  {
  }

  lemma UpperMeans(c: char)
    ensures c in UPPER <==> 'A' <= c <= 'Z'
    ensures c in LOWER <==> 'a' <= c <= 'z'
  {
    if 'A' <= c <= 'Z' {
      UpperAt(c as int - 65);
      assert UPPER[c as int - 65] == c;
    }
    if 'a' <= c <= 'z' {
      UpperAt(c as int - 97);
      assert LOWER[c as int - 97] == c;
    }
    forall i: nat | i < 26
      ensures 'A' <= UPPER[i] <= 'Z' && 'a' <= LOWER[i] <= 'z'
    {
      UpperAt(i);
    }
  }

  lemma DigitMeans(c: char)
    ensures c in DIGITS <==> '0' <= c <= '9'
  {
    if '0' <= c <= '9' {
      assert DIGITS[c as int - 48] == c;
    }
  }

  /** ALPHA, DIGIT, HEXDIG, unreserved, sub-delims and the characters of a scheme. */
  lemma BasicClasses(c: char)
    ensures c in ALPHA <==> c in UPPER + LOWER
    ensures c in DIGIT <==> c in DIGITS
    ensures c in HEXDIG <==> c in DIGITS + "ABCDEF" + "abcdef"
    ensures c in UNRESERVED <==> c in UPPER + LOWER + DIGITS + UNRESERVED_MARKS
    ensures c in SUB_DELIMS <==> c in SUB_DELIM_MARKS
    ensures c in SCHEME_NOT_FIRST <==> c in UPPER + LOWER + DIGITS + "+-."
  {
    hide UPPER, LOWER, DIGITS;
    UpperMeans(c);
    DigitMeans(c);
  }

  /** What is written as itself in a registered name, a userinfo, a path segment, a fragment and a query. */
  const RAW_NAME := UPPER + LOWER + DIGITS + "-._~!$&'()*+,;="

  const RAW_USERINFO := RAW_NAME + ":"

  const RAW_PATH := RAW_NAME + ":@"

  const RAW_FRAGMENT := RAW_NAME + ":@/?"

  const RAW_QUERY := UPPER + LOWER + DIGITS + "-._~!$&'()*,;=:@/?"

  lemma NameClass(c: char)
    ensures c in REG_NAME <==> c in RAW_NAME
  {
    UpperMeans(c);
    DigitMeans(c);
  }

  /** The sets `encode_element` and `decode_element` are called with. */
  lemma ComponentClasses(c: char)
    ensures c in REG_NAME <==> c in RAW_NAME
    ensures c in USER_INFO <==> c in RAW_USERINFO
    ensures c in IPV_FUTURE_LAST_PART <==> c in RAW_USERINFO
    ensures c in PCHAR <==> c in RAW_PATH
    ensures c in QUERY_OR_FRAGMENT <==> c in RAW_FRAGMENT
    ensures c in QUERY_WITHOUT_PLUS <==> c in RAW_QUERY
  {
    hide UPPER, LOWER, DIGITS;
    NameClass(c);
    QueryClass(c);
  }

  lemma QueryClass(c: char)
    ensures c in QUERY_WITHOUT_PLUS <==> c in RAW_QUERY
  {
    hide UPPER, LOWER, DIGITS;
    UpperMeans(c);
    DigitMeans(c);
  }

  // ---- Case -------------------------------------------------------------------------------------

  /** Lower-casing maps each capital letter to its small one and leaves everything else alone. */
  lemma LowerCharIs(c: char, i: nat)
    requires i < 26
    ensures LowerChar(UPPER[i]) == LOWER[i]
    ensures c !in UPPER ==> LowerChar(c) == c
  {
    UpperAt(i);
    UpperMeans(c);
  }

  lemma LowerByteIs(b: byte, i: nat)
    requires i < 26
    ensures UPPER[i] as int == 65 + i && LowerByte(65 + i) == LOWER[i] as int
    ensures b as char !in UPPER ==> LowerByte(b) == b
  {
    UpperAt(i);
    UpperMeans(b as char);
  }

  // ---- Hexadecimal digits -----------------------------------------------------------------------

  /** `c` is the digit `v`, in either case. */
  predicate IsHexDigit(c: char, v: nat)
    requires v < 16
  {
    c == UPPER_HEX[v] || c == LOWER_HEX[v]
  }

  /** The value of a digit is its position; printing writes the capital one. */
  lemma HexDigits(c: char, v: nat)
    requires v < 16
    ensures IsHexDigit(c, v) <==> c in HEXDIG && HexValue(c) == v
    ensures HexChar(v) == UPPER_HEX[v]
  {
    HexAt(v);
  }

  lemma HexAt(v: nat)
    requires v < 16
    ensures UPPER_HEX[v] as int == if v < 10 then 48 + v else 55 + v
    ensures LOWER_HEX[v] as int == if v < 10 then 48 + v else 87 + v
  {
  }

  /** An escape spells sixteen times its first digit plus its second, whatever their case. */
  lemma DecodeEscape(c: char, d: char, hi: nat, lo: nat, rest: string, allowed: set<char>, context: Context)
    requires hi < 16 && lo < 16 && IsHexDigit(c, hi) && IsHexDigit(d, lo)
    ensures Decode(['%', c, d] + rest, allowed, context) ==
            Prepend([16 * hi + lo], Decode(rest, allowed, context))
  {
    HexDigits(c, hi);
    HexDigits(d, lo);
    DropPrefix(['%', c, d], rest);
  }

  /** `t` is `s` with the digits of its complete escapes in any case. */
  predicate EscapeVariant(s: string, t: string) {
    if s == [] then t == []
    else if s[0] == '%' && |s| >= 3 then
      && |t| >= 3 && t[0] == '%'
      && LowerChar(s[1]) == LowerChar(t[1]) && LowerChar(s[2]) == LowerChar(t[2])
      && EscapeVariant(s[3..], t[3..])
    else t != [] && s[0] == t[0] && (s[0] == '%' ==> s == t) && EscapeVariant(s[1..], t[1..])
  }

  lemma SameHexValue(c: char, d: char)
    requires LowerChar(c) == LowerChar(d)
    ensures c in HEXDIG <==> d in HEXDIG
    ensures c in HEXDIG ==> HexValue(c) == HexValue(d)
  {
  }

  /** The case of an escape's digits does not change the decoding. */
  lemma {:induction false} EscapeCase(s: string, t: string, allowed: set<char>, context: Context)
    requires EscapeVariant(s, t)
    ensures Decode(s, allowed, context) == Decode(t, allowed, context)
  {
    if s != [] {
      if s[0] == '%' && |s| >= 3 {
        SameHexValue(s[1], t[1]);
        SameHexValue(s[2], t[2]);
        EscapeCase(s[3..], t[3..], allowed, context);
      } else if s[0] != '%' {
        EscapeCase(s[1..], t[1..], allowed, context);
      }
    }
  }

  // ---- Encoding ---------------------------------------------------------------------------------

  /** Each byte as itself if it is one of the raw characters, and as an escape with capital digits otherwise. */
  function Escaped(b: bytes, raw: string): string {
    if b == [] then []
    else
      (if b[0] as char in raw then [b[0] as char] else ['%', UPPER_HEX[b[0] / 16], UPPER_HEX[b[0] % 16]])
      + Escaped(b[1..], raw)
  }

  lemma {:induction false} EncodeIsEscaped(b: bytes, allowed: set<char>, raw: string)
    requires forall c: char :: c in allowed <==> c in raw
    ensures Encode(b, allowed) == Escaped(b, raw)
  {
    if b != [] {
      HexDigits('0', b[0] / 16);
      HexDigits('0', b[0] % 16);
      EncodeIsEscaped(b[1..], allowed, raw);
    }
  }

  /** What each component writes as itself. */
  lemma EncodeComponent(b: bytes)
    ensures Encode(b, REG_NAME) == Escaped(b, RAW_NAME)
    ensures Encode(b, USER_INFO) == Escaped(b, RAW_USERINFO)
    ensures Encode(b, PCHAR) == Escaped(b, RAW_PATH)
    ensures Encode(b, QUERY_OR_FRAGMENT) == Escaped(b, RAW_FRAGMENT)
    ensures Encode(b, QUERY_WITHOUT_PLUS) == Escaped(b, RAW_QUERY)
  {
    hide Encode, Escaped, RAW_NAME, RAW_USERINFO, RAW_PATH, RAW_FRAGMENT, RAW_QUERY;
    forall c: char
      ensures c in REG_NAME <==> c in RAW_NAME
      ensures c in USER_INFO <==> c in RAW_USERINFO
      ensures c in PCHAR <==> c in RAW_PATH
      ensures c in QUERY_OR_FRAGMENT <==> c in RAW_FRAGMENT
      ensures c in QUERY_WITHOUT_PLUS <==> c in RAW_QUERY
    {
      ComponentClasses(c);
    }
    EncodeIsEscaped(b, REG_NAME, RAW_NAME);
    EncodeIsEscaped(b, USER_INFO, RAW_USERINFO);
    EncodeIsEscaped(b, PCHAR, RAW_PATH);
    EncodeIsEscaped(b, QUERY_OR_FRAGMENT, RAW_FRAGMENT);
    EncodeIsEscaped(b, QUERY_WITHOUT_PLUS, RAW_QUERY);
  }
}
