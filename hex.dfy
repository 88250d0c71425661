/** Hexadecimal digits and strings as Python's `int(text, 16)` reads them. */
module Hex {
  import opened Results

  predicate IsHexDigit(c: char) {
    '0' <= c <= '9' || 'a' <= c <= 'f' || 'A' <= c <= 'F'
  }

  predicate AllHexDigits(s: string) {
    forall i :: 0 <= i < |s| ==> IsHexDigit(s[i])
  }

  /** The value of one hex digit; upper and lower case read alike. */
  function HexDigitValue(c: char): (v: nat)
    requires IsHexDigit(c)
    ensures v < 16
  {
    if '0' <= c <= '9' then c as int - '0' as int
    else if 'a' <= c <= 'f' then c as int - 'a' as int + 10
    else c as int - 'A' as int + 10
  }

  /** The upper-case digit of a value below 16, as `'{:X}'` prints it. */
  function UpperHexDigit(v: nat): (c: char)
    requires v < 16
    ensures IsHexDigit(c) && HexDigitValue(c) == v
  {
    if v < 10 then ('0' as int + v) as char else ('A' as int + v - 10) as char
  }

  /** 16 to the power n. */
  function Pow16(n: nat): (p: nat)
    ensures p >= 1
  {
    if n == 0 then 1 else 16 * Pow16(n - 1)
  }

  /** The number whose base-16 digits, most significant first, are `s`. */
  function HexValue(s: string): (v: nat)
    requires AllHexDigits(s)
    ensures v < Pow16(|s|)
  {
    if s == [] then 0 else 16 * HexValue(s[..|s| - 1]) + HexDigitValue(s[|s| - 1])
  }

  /**
   * `int(s, 16)`: a non-empty run of hex digits parses, anything else is a
   * ValueError. n digits give a value below 16^n.
   */
  function ParseHex(s: string): (r: Option<nat>)
    ensures r.Some? <==> s != [] && AllHexDigits(s)
    ensures r.Some? ==> r.value < Pow16(|s|)
  {
    if s != [] && AllHexDigits(s) then Some(HexValue(s)) else None
  }

  /** A single hex digit parses to its own value. */
  lemma ParseHexDigit(c: char)
    requires IsHexDigit(c)
    ensures ParseHex([c]) == Some(HexDigitValue(c))
  {
    assert [c][..0] == [];
  }

  /** Appending a digit shifts the value one hex place left and adds the digit. */
  lemma ParseHexSnoc(s: string, c: char)
    requires ParseHex(s).Some? && IsHexDigit(c)
    ensures ParseHex(s + [c]) == Some(16 * ParseHex(s).value + HexDigitValue(c))
  {
    assert (s + [c])[..|s|] == s;
  }

  /** `'{:02X}'.format(b)` for a byte value. */
  function FormatByte(b: nat): (s: string)
    requires b < 256
    ensures |s| == 2 && AllHexDigits(s)
  {
    [UpperHexDigit(b / 16), UpperHexDigit(b % 16)]
  }

  /** Reading back what `'{:02X}'` printed gives the byte again. */
  lemma ParseFormatByte(b: nat)
    requires b < 256
    ensures ParseHex(FormatByte(b)) == Some(b)
  {
    var s := FormatByte(b);
    assert s[..1] == [UpperHexDigit(b / 16)];
    assert HexValue(s[..1]) == b / 16 by {
      assert s[..1][..0] == [];
    }
  }
}
