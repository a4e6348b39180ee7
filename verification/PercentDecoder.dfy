/**
 Bytes, hexadecimal digits and the percent-escape decoder of
 src/percent_encoded_character_decoder.rs.
 */
module PercentDecoder {
  import opened Errors
  import opened CharacterClasses

  type byte = b: int | 0 <= b < 256

  type bytes = seq<byte>

  /** `char::to_digit(16)` on a hexadecimal digit. */
  function HexValue(c: char): (v: nat)
    requires c in HEXDIG
    ensures v < 16
  {
    if c <= '9' then c as int - '0' as int
    else if c <= 'F' then c as int - 'A' as int + 10
    else c as int - 'a' as int + 10
  }

  /** One digit of the `{:02X}` format. */
  function HexChar(v: nat): (c: char)
    requires v < 16
    ensures c in HEXDIG && c !in {'a', 'b', 'c', 'd', 'e', 'f'} && HexValue(c) == v
  {
    if v < 10 then ('0' as int + v) as char else ('A' as int + v - 10) as char
  }

  /** The fields of the decoder; the host machine carries one of these by value. */
  datatype Decoder = Decoder(decoded: byte, digitsLeft: nat) {

    /** No digit read yet, or one digit read and its value kept. */
    predicate Valid() {
      (digitsLeft == 2 && decoded == 0) || (digitsLeft == 1 && decoded < 16)
    }

    /** The decoder after reading `c`, and the byte completed by `c` if any. */
    function Next(c: char): (r: (Decoder, Result<Option<byte>>))
      requires Valid()
      ensures r.0.Valid()
      ensures r.1.Err? <==> c !in HEXDIG
      ensures r.1.Err? || digitsLeft == 1 ==> r.0 == FRESH
    {
      if c !in HEXDIG then (FRESH, Err(IllegalPercentEncoding))
      else
        var shifted := decoded * 16 % 256 + HexValue(c);
        if digitsLeft == 1 then (FRESH, Ok(Some(shifted)))
        else (Decoder(shifted, 1), Ok(None))
    }
  }

  const FRESH: Decoder := Decoder(0, 2)

  /** The decoder object: the byte under construction and the digits still to come. */
  class PercentEncodedCharacterDecoder {
    var decodedCharacter: byte
    var digitsLeft: nat

    ghost function Value(): Decoder
      reads this
    {
      Decoder(decodedCharacter, digitsLeft)
    }

    ghost predicate Valid()
      reads this
    {
      Value().Valid()
    }

    constructor ()
      ensures Value() == FRESH
    {
      decodedCharacter, digitsLeft := 0, 2;
    }

    /** Feeds one character; the shift and the addition stay within a byte. */
    method Next(c: char) returns (r: Result<Option<byte>>)
      requires Valid()
      modifies this
      ensures Valid()
      ensures (Value(), r) == old(Value()).Next(c)
    {
      var shifted := ShiftInHexDigit(c);
      if shifted.Err? {
        return Err(shifted.error);
      }
      digitsLeft := digitsLeft - 1;
      if digitsLeft == 0 {
        var output := decodedCharacter;
        Reset();
        return Ok(Some(output));
      }
      return Ok(None);
    }

    method Reset()
      modifies this
      ensures Value() == FRESH
    {
      decodedCharacter := 0;
      digitsLeft := 2;
    }

    method ShiftInHexDigit(c: char) returns (r: Result<()>)
      modifies this
      ensures r == if c in HEXDIG then Ok(()) else Err(IllegalPercentEncoding)
      ensures c !in HEXDIG ==> Value() == FRESH
      ensures c in HEXDIG ==>
                decodedCharacter == old(decodedCharacter) * 16 % 256 + HexValue(c) && digitsLeft == old(digitsLeft)
    {
      decodedCharacter := decodedCharacter * 16 % 256;
      if c in HEXDIG {
        decodedCharacter := decodedCharacter + HexValue(c);
        return Ok(());
      }
      Reset();
      return Err(IllegalPercentEncoding);
    }
  }
}
