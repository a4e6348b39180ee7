/**
 Decimal numerals as Rust's integer `parse` reads them and `write!` prints them.
 */
module Decimal {
  import opened Errors
  import opened CharacterClasses

  predicate AllDigits(s: string) {
    forall i | 0 <= i < |s| :: s[i] in DIGIT
  }

  function Value(s: string): nat
    requires AllDigits(s)
  {
    if s == [] then 0 else Value(s[..|s| - 1]) * 10 + (s[|s| - 1] as int - '0' as int)
  }

  /** `s.parse::<uN>()` for the type whose largest value is `max`: an optional `+`, then digits. */
  function ParseUint(s: string, max: nat): (r: Option<nat>)
    ensures r.Some? ==> r.value <= max
  {
    var t := if |s| > 1 && s[0] == '+' then s[1..] else s;
    if t != [] && AllDigits(t) && Value(t) <= max then Some(Value(t)) else None
  }

  function Numeral(n: nat): string {
    var last := ('0' as int + n % 10) as char;
    if n < 10 then [last] else Numeral(n / 10) + [last]
  }

  function PowerOfTen(n: nat): nat {
    if n == 0 then 1 else 10 * PowerOfTen(n - 1)
  }

  lemma TenTimes(x: int, p: int)
    ensures 10 * (x * p) == x * (10 * p)
  {
  }

  /** Place value: a digit in front counts its power of ten. */
  lemma {:induction false} ValueFront(c: char, s: string)
    requires c in DIGIT && AllDigits(s)
    ensures AllDigits([c] + s)
    ensures Value([c] + s) == (c as int - '0' as int) * PowerOfTen(|s|) + Value(s)
    decreases |s|
  {
    var t := [c] + s;
    if s == [] {
      assert t[..0] == [];
    } else {
      var s' := s[..|s| - 1];
      ValueFront(c, s');
      assert t[..|t| - 1] == [c] + s';
      TenTimes(c as int - '0' as int, PowerOfTen(|s'|));
    }
  }

  /** What is read: decimal digits, after at most one plus sign, of a value that fits. */
  lemma ParseUintIs(t: string, max: nat)
    requires t != [] && AllDigits(t)
    ensures ParseUint(t, max) == if Value(t) <= max then Some(Value(t)) else None
    ensures ParseUint("+" + t, max) == ParseUint(t, max)
  {
    assert ("+" + t)[1..] == t;
    assert t[0] != '+';
  }

  /** A numeral has no leading zero. */
  lemma {:induction false} NumeralValue(n: nat)
    ensures Numeral(n) != [] && AllDigits(Numeral(n)) && Value(Numeral(n)) == n
    ensures Numeral(n)[0] == '0' ==> n == 0 && Numeral(n) == "0"
  {
    if n >= 10 {
      NumeralValue(n / 10);
      var s := Numeral(n);
      assert s[..|s| - 1] == Numeral(n / 10);
    }
  }

  /** A printed number reads back, in every type wide enough for it. */
  lemma ParseNumeral(n: nat, max: nat)
    requires n <= max
    ensures ParseUint(Numeral(n), max) == Some(n)
  {
    NumeralValue(n);
  }
}
