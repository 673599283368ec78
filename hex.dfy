/** Hexadecimal text and octets: Python's `bytes.fromhex` and the lowercase
    spelling `bytes.hex` produces. */
module Hex {
  import opened Common

  const LowerHexDigits: string := "0123456789abcdef"

  /** A digit `bytes.fromhex` accepts: either case. */
  predicate IsHexDigit(c: char) {
    '0' <= c <= '9' || 'a' <= c <= 'f' || 'A' <= c <= 'F'
  }

  /** A character of `LowerHexDigits`. */
  predicate IsLowerHexDigit(c: char) {
    '0' <= c <= '9' || 'a' <= c <= 'f'
  }

  lemma LowerHexDigitsAre(c: char)
    ensures c in LowerHexDigits <==> IsLowerHexDigit(c)
  {
    if IsLowerHexDigit(c) {
      var i := if c <= '9' then c as int - '0' as int else c as int - 'a' as int + 10;
      assert LowerHexDigits[i] == c;
    }
  }

  /** ASCII whitespace as CPython's `Py_ISSPACE` knows it: tab, line feed,
      vertical tab, form feed, carriage return and space. */
  predicate IsAsciiSpace(c: char) {
    c == ' ' || '\t' <= c <= '\r'
  }

  function DigitValue(c: char): (v: int)
    requires IsHexDigit(c)
    ensures 0 <= v < 16
  {
    if '0' <= c <= '9' then c as int - '0' as int
    else if 'a' <= c <= 'f' then c as int - 'a' as int + 10
    else c as int - 'A' as int + 10
  }

  /** The lowercase digit for a value below 16: the character at that
      position of `LowerHexDigits`. */
  function LowerDigit(v: int): (c: char)
    requires 0 <= v < 16
    ensures IsLowerHexDigit(c) && IsHexDigit(c) && DigitValue(c) == v
  {
    if v < 10 then ('0' as int + v) as char else ('a' as int + v - 10) as char
  }

  lemma LowerDigitOfChar(c: char)
    requires IsLowerHexDigit(c)
    ensures LowerDigit(DigitValue(c)) == c
  {
  }

  /** `bytes.fromhex`: whitespace may stand before each pair of digits,
      never inside one; any other character, or a digit without a partner,
      is an error (None). */
  function FromHex(s: string): (r: Option<seq<byte>>)
    ensures r.Some? ==> forall i :: 0 <= i < |s| ==> IsHexDigit(s[i]) || IsAsciiSpace(s[i])
    ensures r.Some? ==> 2 * |r.value| <= |s|
    decreases |s|
  {
    if |s| == 0 then Some([])
    else if IsAsciiSpace(s[0]) then FromHex(s[1..])
    else if |s| >= 2 && IsHexDigit(s[0]) && IsHexDigit(s[1]) then
      match FromHex(s[2..])
      case None => None
      case Some(rest) => Some([DigitValue(s[0]) * 16 + DigitValue(s[1])] + rest)
    else None
  }

  /** The lowercase two-digits-per-octet spelling, as `bytes.hex` gives it. */
  function ToHex(b: seq<byte>): (s: string)
    ensures |s| == 2 * |b|
    ensures forall i :: 0 <= i < |s| ==> IsLowerHexDigit(s[i])
  {
    if b == [] then "" else [LowerDigit(b[0] / 16), LowerDigit(b[0] % 16)] + ToHex(b[1..])
  }

  /** Reading back the lowercase spelling of some octets gives those octets. */
  lemma {:induction false} FromHexToHex(b: seq<byte>)
    ensures FromHex(ToHex(b)) == Some(b)
  {
    if b != [] {
      var s := ToHex(b);
      assert s[0] == LowerDigit(b[0] / 16) && s[1] == LowerDigit(b[0] % 16);
      assert s[2..] == ToHex(b[1..]);
      FromHexToHex(b[1..]);
      assert !IsAsciiSpace(s[0]) && IsHexDigit(s[0]) && IsHexDigit(s[1]);
      assert DigitValue(s[0]) * 16 + DigitValue(s[1]) == b[0];
      assert FromHex(s) == Some([b[0]] + b[1..]);
      assert [b[0]] + b[1..] == b;
    }
  }

  /** Two lowercase digits name an octet whose lowercase spelling they are. */
  lemma LowerPair(hi: char, lo: char)
    requires IsLowerHexDigit(hi) && IsLowerHexDigit(lo)
    ensures var v := DigitValue(hi) * 16 + DigitValue(lo);
      0 <= v < 256 && LowerDigit(v / 16) == hi && LowerDigit(v % 16) == lo
  {
    Split(DigitValue(hi), DigitValue(lo), 16);
    LowerDigitOfChar(hi);
    LowerDigitOfChar(lo);
  }

  /** A string of lowercase hex digits, of even length, is the spelling of
      exactly half as many octets. */
  lemma {:induction false} ToHexFromHex(s: string)
    requires |s| % 2 == 0
    requires forall i :: 0 <= i < |s| ==> IsLowerHexDigit(s[i])
    ensures FromHex(s).Some?
    ensures |FromHex(s).value| == |s| / 2
    ensures ToHex(FromHex(s).value) == s
    decreases |s|
  {
    if |s| > 0 {
      assert IsHexDigit(s[0]) && IsHexDigit(s[1]) && !IsAsciiSpace(s[0]);
      ToHexFromHex(s[2..]);
      var rest := FromHex(s[2..]).value;
      var v := DigitValue(s[0]) * 16 + DigitValue(s[1]);
      assert FromHex(s) == Some([v] + rest);
      LowerPair(s[0], s[1]);
      assert ToHex([v] + rest) == [s[0], s[1]] + ToHex(rest);
      assert s == [s[0], s[1]] + s[2..];
    }
  }
}
