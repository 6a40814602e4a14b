/**
 * Hexadecimal text of bytes: String.format("%02x", b) on the writing side and
 * Integer.parseInt(field, 16) on a two-character field on the reading side.
 */
module Hex {
  import opened Wrappers

  predicate IsByte(b: int) { 0 <= b < 256 }

  predicate AllBytes(bs: seq<int>) { forall i | 0 <= i < |bs| :: IsByte(bs[i]) }

  /**
   * Character.digit(c, 16) on ASCII text: the digits 0-9 and the letters a-f in either
   * case. Java also accepts other Unicode decimal digits and the fullwidth letters; those
   * are not part of this model.
   */
  function HexDigitValue(c: char): (r: Option<nat>)
    ensures r.Some? ==> r.value < 16
  {
    if '0' <= c <= '9' then Some((c as int) - ('0' as int))
    else if 'a' <= c <= 'f' then Some((c as int) - ('a' as int) + 10)
    else if 'A' <= c <= 'F' then Some((c as int) - ('A' as int) + 10)
    else None
  }

  predicate IsHexDigit(c: char) { HexDigitValue(c).Some? }

  predicate IsLowerHexDigit(c: char) { '0' <= c <= '9' || 'a' <= c <= 'f' }

  predicate AllHexDigits(s: string) { forall i | 0 <= i < |s| :: IsHexDigit(s[i]) }

  predicate AllLowerHexDigits(s: string) { forall i | 0 <= i < |s| :: IsLowerHexDigit(s[i]) }

  lemma LowerHexIsHex(s: string)
    requires AllLowerHexDigits(s)
    ensures AllHexDigits(s)
  {
    forall i | 0 <= i < |s| ensures IsHexDigit(s[i]) {
      assert HexDigitValue(s[i]).Some?;
    }
  }

  /**
   * Integer.parseInt(field, 16) of a two-character field of hex digits; None is the
   * NumberFormatException it throws when a character is not a hex digit.
   */
  function ParseHexPair(field: string): (r: Option<int>)
    requires |field| == 2
    ensures r.Some? ==> IsByte(r.value)
    ensures r.Some? <==> IsHexDigit(field[0]) && IsHexDigit(field[1])
  {
    match (HexDigitValue(field[0]), HexDigitValue(field[1]))
    case (Some(h), Some(l)) => Some(16 * h + l)
    case _ => None
  }

  /** The lower-case digit of a nibble, as %x writes it. */
  function HexDigit(d: nat): char
    requires d < 16
  {
    if d < 10 then (('0' as int) + d) as char else (('a' as int) + d - 10) as char
  }

  /** The digit written for a nibble is a lower-case digit that reads back as the nibble. */
  lemma HexDigitReadsBack(d: nat)
    requires d < 16
    ensures IsLowerHexDigit(HexDigit(d)) && HexDigitValue(HexDigit(d)) == Some(d)
  {
  }

  /** String.format("%02x", b): two lower-case hex digits, high nibble first. */
  function HexByte(b: int): (s: string)
    requires IsByte(b)
    ensures |s| == 2
  {
    [HexDigit(b / 16), HexDigit(b % 16)]
  }

  lemma HexByteIsLower(b: int)
    requires IsByte(b)
    ensures AllLowerHexDigits(HexByte(b))
  {
    HexDigitReadsBack(b / 16);
    HexDigitReadsBack(b % 16);
  }

  /** The hex text of a byte sequence: each byte as two digits, no separators. */
  function HexBytes(bs: seq<int>): (s: string)
    requires AllBytes(bs)
    ensures |s| == 2 * |bs|
  {
    if |bs| == 0 then "" else HexByte(bs[0]) + HexBytes(bs[1..])
  }

  /** Hex text is written with lower-case digits only. */
  lemma {:induction false} HexBytesIsLower(bs: seq<int>)
    requires AllBytes(bs)
    ensures AllLowerHexDigits(HexBytes(bs))
    decreases |bs|
  {
    if |bs| > 0 {
      HexBytesIsLower(bs[1..]);
      HexByteIsLower(bs[0]);
      LowerHexAppend(HexByte(bs[0]), HexBytes(bs[1..]));
    }
  }

  lemma LowerHexAppend(a: string, b: string)
    requires AllLowerHexDigits(a) && AllLowerHexDigits(b)
    ensures AllLowerHexDigits(a + b)
  {
    assert forall i | 0 <= i < |a + b| :: (a + b)[i] == if i < |a| then a[i] else b[i - |a|];
  }

  /** Reading a written byte back gives the byte. */
  lemma ParseHexByte(b: int)
    requires IsByte(b)
    ensures ParseHexPair(HexByte(b)) == Some(b)
  {
    HexDigitReadsBack(b / 16);
    HexDigitReadsBack(b % 16);
  }

  /** A lower-case two-digit field is exactly what %02x writes for its value. */
  lemma HexByteOfParsed(field: string)
    requires |field| == 2 && AllLowerHexDigits(field)
    ensures ParseHexPair(field).Some? && HexByte(ParseHexPair(field).value) == field
  {
    var h, l := HexDigitValue(field[0]).value, HexDigitValue(field[1]).value;
    assert (16 * h + l) / 16 == h && (16 * h + l) % 16 == l;
    assert HexDigit(h) == field[0] && HexDigit(l) == field[1];
  }

  lemma {:induction false} HexBytesAppend(a: seq<int>, b: seq<int>)
    requires AllBytes(a) && AllBytes(b)
    ensures AllBytes(a + b) && HexBytes(a + b) == HexBytes(a) + HexBytes(b)
  {
    if |a| > 0 {
      assert (a + b)[1..] == a[1..] + b;
      HexBytesAppend(a[1..], b);
    } else {
      assert a + b == b;
    }
  }

  /** The first two characters of a hex text are its first byte. */
  lemma HexBytesHead(bs: seq<int>, rest: string)
    requires AllBytes(bs) && |bs| > 0
    ensures (HexBytes(bs) + rest)[..2] == HexByte(bs[0])
    ensures (HexBytes(bs) + rest)[2..] == HexBytes(bs[1..]) + rest
  {
    var head, tail := HexByte(bs[0]), HexBytes(bs[1..]) + rest;
    assert HexBytes(bs) + rest == head + tail;
  }
}
