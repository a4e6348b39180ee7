/**
 The dotted-decimal recogniser of src/validate_ipv4_address.rs and the grammar it accepts.
 */
module Ipv4 {
  import opened Errors
  import opened Sequences
  import opened CharacterClasses
  import opened Decimal

  datatype Shared = Shared(numGroups: nat, octetBuffer: string)

  datatype State = NotInOctet(shared: Shared) | ExpectDigitOrDot(shared: Shared)

  const INITIAL: State := NotInOctet(Shared(0, []))

  function Next(st: State, c: char): Result<State> {
    match st
    case NotInOctet(sh) =>
      if c in DIGIT then Ok(ExpectDigitOrDot(sh.(octetBuffer := sh.octetBuffer + [c])))
      else Err(IllegalCharacter(InIpv4Address))
    case ExpectDigitOrDot(sh) =>
      if c == '.' then
        var n := sh.numGroups + 1;
        if n > 4 then Err(TooManyAddressParts)
        else if ParseUint(sh.octetBuffer, 255) == None then Err(InvalidDecimalOctet)
        else Ok(NotInOctet(Shared(n, [])))
      else if c in DIGIT then Ok(ExpectDigitOrDot(sh.(octetBuffer := sh.octetBuffer + [c])))
      else Err(IllegalCharacter(InIpv4Address))
  }

  function Finalize(st: State): Result<()> {
    match st
    case NotInOctet(_) => Err(TruncatedHost)
    case ExpectDigitOrDot(sh) =>
      if sh.octetBuffer != [] && ParseUint(sh.octetBuffer, 255) == None then Err(InvalidDecimalOctet)
      else
        var n := if sh.octetBuffer != [] then sh.numGroups + 1 else sh.numGroups;
        if n == 4 then Ok(()) else if n < 4 then Err(TooFewAddressParts) else Err(TooManyAddressParts)
  }

  /** `try_fold(st, State::next)`. */
  function Run(st: State, s: string): Result<State>
    decreases |s|
  {
    if s == [] then Ok(st) else
      var st' :- Next(st, s[0]);
      Run(st', s[1..])
  }

  function Validate(address: string): Result<()> {
    var st :- Run(INITIAL, address);
    Finalize(st)
  }

  // ---- Grammar ----------------------------------------------------------------------------------

  /** A non-empty decimal string of value at most 255; leading zeros are allowed. */
  predicate Octet(s: string) {
    s != [] && AllDigits(s) && Value(s) <= 255
  }

  ghost predicate AllOctets(parts: seq<string>) {
    forall k | 0 <= k < |parts| :: Octet(parts[k])
  }

  /** All dot-separated parts of `s` are octets and there are `n` of them. */
  ghost predicate Octets(s: string, n: int) {
    |Split(s, '.')| == n && AllOctets(Split(s, '.'))
  }

  /** Four octets joined by dots: IPv4address of section 3.2.2 of RFC 3986, plus leading zeros. */
  ghost predicate Address(s: string) {
    Octets(s, 4)
  }

  /** The result for the dot-separated parts, after `n` earlier ones: the first fault from the left decides. */
  function CheckParts(n: nat, parts: seq<string>): Result<()>
    requires parts != []
    decreases |parts|
  {
    var part, last := parts[0], |parts| == 1;
    if part == [] && last then Err(TruncatedHost)
    else if part == [] || !AllDigits(part) then Err(IllegalCharacter(InIpv4Address))
    else if !last && n >= 4 then Err(TooManyAddressParts)
    else if Value(part) > 255 then Err(InvalidDecimalOctet)
    else if !last then CheckParts(n + 1, parts[1..])
    else if n == 3 then Ok(()) else if n < 3 then Err(TooFewAddressParts) else Err(TooManyAddressParts)
  }

  function FinishRun(st: State, s: string): Result<()> {
    var st' :- Run(st, s);
    Finalize(st')
  }

  lemma AllOctetsCons(a: string, parts: seq<string>)
    ensures AllOctets([a] + parts) <==> Octet(a) && AllOctets(parts)
  {
    var all := [a] + parts;
    assert all[0] == a && all[1..] == parts;
    assert forall k | 0 <= k < |parts| :: parts[k] == all[k + 1];
  }

  lemma OctetsPeel(a: string, b: string, n: int)
    requires Avoids(a, {'.'})
    ensures Octets(a, n) <==> n == 1 && Octet(a)
    ensures Octets(a + "." + b, n) <==> Octet(a) && Octets(b, n - 1)
  {
    SplitPeel(a, b, '.');
    assert AllOctets([a]) <==> Octet(a) by { assert [a][0] == a; }
    AllOctetsCons(a, Split(b, '.'));
  }

  /** With an octet in progress the machine gives the result for the parts of the octet and the rest. */
  lemma {:induction false} ResultFrom(n: nat, buffer: string, s: string)
    requires buffer != [] && AllDigits(buffer)
    ensures FinishRun(ExpectDigitOrDot(Shared(n, buffer)), s) == CheckParts(n, Split(buffer + s, '.'))
    decreases |s|
  {
    hide ParseUint, Split;
    if s == [] {
      Empty(buffer);
      SplitPeel(buffer, [], '.');
      OctetParses(buffer);
    } else if s[0] == '.' {
      Shift(buffer, s);
      SplitPeel(buffer, s[1..], '.');
      HeadTail(buffer, Split(s[1..], '.'));
      OctetParses(buffer);
      ResultFresh(n + 1, s[1..]);
    } else if s[0] in DIGIT {
      Shift(buffer, s);
      ResultFrom(n, buffer + [s[0]], s[1..]);
    } else {
      BadCharacter(buffer + s, |buffer|);
    }
  }

  lemma OctetParses(s: string)
    requires s != [] && AllDigits(s)
    ensures Value(s) <= 255 <==> ParseUint(s, 255) != None
  {
    assert s[0] != '+';
  }

  /** The first part contains the first character that is no digit, unless that is a dot. */
  lemma BadCharacter(s: string, i: nat)
    requires i < |s| && s[i] !in DIGIT && s[i] != '.' && AllDigits(s[..i])
    ensures !AllDigits(Split(s, '.')[0])
  {
    var k := Find(s, {'.'});
    assert k > i by {
      assert forall j | 0 <= j < i :: s[..i][j] == s[j];
    }
    assert s[..k][i] == s[i];
    Empty(s);
  }

  lemma {:induction false} ResultFresh(n: nat, s: string)
    ensures FinishRun(NotInOctet(Shared(n, [])), s) == CheckParts(n, Split(s, '.'))
    decreases |s|
  {
    hide Split;
    if s == [] {
      SplitPeel([], [], '.');
    } else if s[0] in DIGIT {
      Uncons(s);
      Empty([s[0]]);
      ResultFrom(n, [s[0]], s[1..]);
    } else if s[0] == '.' {
      assert s == [] + "." + s[1..];
      SplitPeel([], s[1..], '.');
    } else {
      BadCharacter(s, 0);
    }
  }

  lemma {:induction false} CheckPartsAccepts(n: nat, parts: seq<string>)
    requires parts != []
    ensures CheckParts(n, parts).Ok? <==> AllOctets(parts) && n + |parts| == 4
    decreases |parts|
  {
    Uncons(parts);
    AllOctetsCons(parts[0], parts[1..]);
    if |parts| > 1 {
      CheckPartsAccepts(n + 1, parts[1..]);
    }
  }

  /** The machine's result, errors included, in terms of the dot-separated parts. */
  lemma ValidateResult(s: string)
    ensures Validate(s) == CheckParts(0, Split(s, '.'))
  {
    ResultFresh(0, s);
  }

  lemma {:induction false} OctetsCharacters(s: string, n: int)
    requires Octets(s, n)
    ensures forall i | 0 <= i < |s| :: s[i] in DIGIT || s[i] == '.'
    decreases |s|
  {
    var i := Find(s, {'.'});
    if i == |s| {
      assert s[..i] == s;
      OctetsPeel(s, [], n);
    } else {
      assert s == s[..i] + "." + s[i + 1..];
      OctetsPeel(s[..i], s[i + 1..], n);
      OctetsCharacters(s[i + 1..], n - 1);
    }
  }

  /** `validate_ipv4_address` accepts exactly the dotted-decimal addresses. */
  lemma ValidateAccepts(s: string)
    ensures Validate(s).Ok? <==> Address(s)
  {
    ValidateResult(s);
    CheckPartsAccepts(0, Split(s, '.'));
  }

  /** Accepted addresses consist of decimal digits and dots. */
  lemma AcceptedCharacters(s: string)
    requires Validate(s).Ok?
    ensures forall i | 0 <= i < |s| :: s[i] in DIGIT || s[i] == '.'
  {
    ValidateAccepts(s);
    OctetsCharacters(s, 4);
  }

  // ---- RFC 3986 dec-octet -----------------------------------------------------------------------

  /** dec-octet of section 3.2.2 of RFC 3986, alternative by alternative. */
  predicate DecOctet(s: string) {
    && AllDigits(s)
    && (|| |s| == 1
        || (|s| == 2 && '1' <= s[0])
        || (|s| == 3 && s[0] == '1')
        || (|s| == 3 && s[0] == '2' && s[1] <= '4')
        || (|s| == 3 && s[0] == '2' && s[1] == '5' && s[2] <= '5'))
  }

  lemma {:induction false} ValueAtLeast(s: string)
    requires AllDigits(s) && |s| >= 4 && s[0] != '0'
    ensures Value(s) >= 1000
  {
    if |s| > 4 {
      ValueAtLeast(s[..|s| - 1]);
    } else {
      ValueOfFew(s[..3]);
    }
  }

  lemma ValueOfFew(s: string)
    requires AllDigits(s) && 1 <= |s| <= 3
    ensures |s| == 1 ==> Value(s) == s[0] as int - 48
    ensures |s| == 2 ==> Value(s) == 10 * (s[0] as int - 48) + (s[1] as int - 48)
    ensures |s| == 3 ==> Value(s) == 100 * (s[0] as int - 48) + 10 * (s[1] as int - 48) + (s[2] as int - 48)
  {
    assert Value([]) == 0;
    assert s[..|s| - 1][..0] == [];
    if |s| > 1 {
      assert s[..|s| - 1][..|s| - 2] == s[..|s| - 2];
      assert s[..1][..0] == [] && Value(s[..1]) == s[0] as int - 48;
    } else {
      assert s[..0] == [];
    }
  }

  predicate NoLeadingZero(s: string) {
    |s| == 1 || (s != [] && s[0] != '0')
  }

  /** The recogniser's octets are dec-octets plus the ones with leading zeros, and nothing else. */
  lemma DecOctetIsOctet(s: string)
    ensures DecOctet(s) <==> Octet(s) && NoLeadingZero(s)
  {
    if AllDigits(s) && |s| >= 1 {
      if |s| <= 3 {
        ValueOfFew(s);
      } else if s[0] != '0' {
        ValueAtLeast(s);
      }
    }
  }

  /** IPv4address of section 3.2.2 of RFC 3986. */
  ghost predicate RfcAddress(s: string) {
    |Split(s, '.')| == 4 && AllDecOctets(Split(s, '.'))
  }

  ghost predicate NoLeadingZeros(parts: seq<string>) {
    forall k | 0 <= k < |parts| :: NoLeadingZero(parts[k])
  }

  ghost predicate AllDecOctets(parts: seq<string>) {
    forall k | 0 <= k < |parts| :: DecOctet(parts[k])
  }

  /** Every IPv4address of the RFC is accepted; what else is accepted has an octet with a leading zero. */
  lemma ValidateAcceptsRfcAddresses(s: string)
    ensures RfcAddress(s) <==> Validate(s).Ok? && NoLeadingZeros(Split(s, '.'))
  {
    hide Validate;
    ValidateAccepts(s);
    DecOctetsAreOctets(Split(s, '.'));
  }

  lemma DecOctetsAreOctets(parts: seq<string>)
    ensures AllDecOctets(parts) <==> AllOctets(parts) && NoLeadingZeros(parts)
  {
    hide DecOctet, Octet, NoLeadingZero;
    forall k | 0 <= k < |parts|
      ensures DecOctet(parts[k]) <==> Octet(parts[k]) && NoLeadingZero(parts[k])
    {
      DecOctetIsOctet(parts[k]);
    }
  }

  // ---- Run invariant ----------------------------------------------------------------------------

  function Dots(s: string): nat {
    if s == [] then 0 else Dots(s[..|s| - 1]) + if s[|s| - 1] == '.' then 1 else 0
  }

  /** What the machine remembers of the text read so far: the dots, and the digits after the last one. */
  ghost predicate Remembers(st: State, read: string) {
    var buffer := st.shared.octetBuffer;
    var start := |read| - |buffer|;
    && st.shared.numGroups == Dots(read) <= 4
    && 0 <= start
    && read[start..] == buffer
    && AllDigits(buffer)
    && (start > 0 ==> read[start - 1] == '.')
    && (st.NotInOctet? <==> buffer == [])
  }

  lemma NextRemembers(st: State, read: string, c: char)
    requires Remembers(st, read) && Next(st, c).Ok?
    ensures Remembers(Next(st, c).value, read + [c])
  {
    var read' := read + [c];
    DropPrefix(read, [c]);
    var start := |read| - |st.shared.octetBuffer|;
    assert read'[start..] == st.shared.octetBuffer + [c];
    assert read'[|read'|..] == [];
  }

  lemma {:induction false} RunRemembers(st: State, read: string, s: string)
    requires Remembers(st, read) && Run(st, s).Ok?
    ensures Remembers(Run(st, s).value, read + s)
    decreases |s|
  {
    hide Remembers, Next;
    if s == [] {
      Empty(read);
    } else {
      NextRemembers(st, read, s[0]);
      RunRemembers(Next(st, s[0]).value, read + [s[0]], s[1..]);
      Shift(read, s);
    }
  }

  /** After every prefix that does not fail, the group count is the number of dots read. */
  lemma RunInvariant(s: string)
    requires Run(INITIAL, s).Ok?
    ensures Remembers(Run(INITIAL, s).value, s)
  {
    RunRemembers(INITIAL, [], s);
    Empty(s);
  }
}
