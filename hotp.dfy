/** HOTP, section 5 of RFC 4226, with HMAC-SHA-1 supplied from outside and
    the decimal formatting of the TOTP library. */
module Hotp {
  import opened Common

  /** The 20-octet output of HMAC-SHA-1. */
  type Digest = d: seq<byte> | |d| == 20 witness seq(20, _ => 0)

  /** HMAC-SHA-1 keyed by the first argument over the second: a primitive of
      which the model knows only the size of its output. */
  type HmacSha1 = (seq<byte>, seq<byte>) -> Digest

  /** The number of digits of a code (`digits=6` in the configuration). */
  const CodeDigits: nat := 6

  function Pow10(n: nat): (p: nat)
    ensures p >= 1
  {
    if n == 0 then 1 else 10 * Pow10(n - 1)
  }

  function Pow256(n: nat): (p: nat)
    ensures p >= 1
  {
    if n == 0 then 1 else 256 * Pow256(n - 1)
  }

  // ---------------------------------------------------------------------
  // The moving factor: an integer counter as a big-endian octet string.

  /** The big-endian value of an octet string. */
  function Value(b: seq<byte>): (v: nat) {
    if b == [] then 0 else Value(b[..|b| - 1]) * 256 + b[|b| - 1]
  }

  /** The shortest big-endian octet string of n (empty for 0). */
  function MinimalBigEndian(n: nat): (b: seq<byte>)
    ensures Value(b) == n
    ensures n < 256 ==> |b| <= 1
  {
    if n == 0 then []
    else
      var m := MinimalBigEndian(n / 256);
      var b := m + [n % 256];
      assert b[..|b| - 1] == m && b[|b| - 1] == n % 256;
      assert Value(b) == Value(m) * 256 + n % 256;
      assert n < 256 ==> m == [] by {
        if n < 256 {
          assert n / 256 == 0;
        }
      }
      b
  }

  lemma {:induction false} MinimalBigEndianLength(n: nat, k: nat)
    requires n < Pow256(k)
    ensures |MinimalBigEndian(n)| <= k
  {
    if n >= 256 {
      MinimalBigEndianLength(n / 256, k - 1);
    }
  }

  lemma {:induction false} LeadingZeros(z: nat, b: seq<byte>)
    ensures Value(seq(z, _ => 0) + b) == Value(b)
    decreases |b|, z
  {
    var s := seq(z, _ => 0) + b;
    if b == [] {
      assert s == seq(z, _ => 0);
      if z > 0 {
        assert s[..|s| - 1] == seq(z - 1, _ => 0) + [];
        LeadingZeros(z - 1, []);
      }
    } else {
      assert s[..|s| - 1] == seq(z, _ => 0) + b[..|b| - 1];
      LeadingZeros(z, b[..|b| - 1]);
    }
  }

  /** The library's `int_to_bytestring(counter)`: big-endian, left-padded
      with zero octets to eight, longer only for counters of 2^64 and up. */
  function CounterBytes(counter: nat): (b: seq<byte>)
    ensures Value(b) == counter
    ensures counter < Pow256(8) ==> |b| == 8
  {
    var m := MinimalBigEndian(counter);
    var z := if |m| < 8 then 8 - |m| else 0;
    CounterFitsEight(counter);
    LeadingZeros(z, m);
    seq(z, _ => 0) + m
  }

  lemma CounterFitsEight(counter: nat)
    ensures counter < Pow256(8) ==> |MinimalBigEndian(counter)| <= 8
  {
    if counter < Pow256(8) {
      MinimalBigEndianLength(counter, 8);
    }
  }

  // ---------------------------------------------------------------------
  // Dynamic truncation, section 5.3 of RFC 4226.

  /** The 31-bit integer read at the offset named by the low four bits of
      the last octet. */
  function Truncate(h: Digest): (code: nat)
    ensures code < 0x8000_0000
    ensures code == Value(h[h[19] % 16..h[19] % 16 + 4]) % 0x8000_0000
  {
    var offset := h[19] as int % 16;
    var b0, b1, b2, b3 := h[offset] as int, h[offset + 1] as int, h[offset + 2] as int, h[offset + 3] as int;
    var code := (b0 % 128) * 0x100_0000 + b1 * 0x1_0000 + b2 * 0x100 + b3;
    var four := h[offset..offset + 4];
    assert Value(four[..1]) == b0 by { assert four[..1][..0] == []; }
    assert Value(four[..2]) == b0 * 256 + b1 by { assert four[..2][..1] == four[..1]; }
    assert Value(four[..3]) == (b0 * 256 + b1) * 256 + b2 by { assert four[..3][..2] == four[..2]; }
    assert Value(four) == ((b0 * 256 + b1) * 256 + b2) * 256 + b3 by { assert four[..|four| - 1] == four[..3]; }
    assert Value(four) == (b0 / 128) * 0x8000_0000 + code;
    Split(b0 / 128, code, 0x8000_0000);
    code
  }

  // ---------------------------------------------------------------------
  // Decimal formatting.

  predicate IsDigit(c: char) {
    '0' <= c <= '9'
  }

  predicate AllDigits(s: string) {
    forall i :: 0 <= i < |s| ==> IsDigit(s[i])
  }

  function DigitChar(d: nat): (c: char)
    requires d < 10
    ensures IsDigit(c)
  {
    ('0' as int + d) as char
  }

  /** The number a string of decimal digits spells. */
  function DecimalValue(s: string): (v: nat)
    requires AllDigits(s)
    ensures v < Pow10(|s|)
  {
    if s == [] then 0 else DecimalValue(s[..|s| - 1]) * 10 + (s[|s| - 1] as int - '0' as int)
  }

  /** `str(n)`: n in base ten, without leading zeros. */
  function DecimalString(n: nat): (s: string)
    ensures |s| >= 1 && AllDigits(s)
  {
    if n < 10 then [DigitChar(n)] else DecimalString(n / 10) + [DigitChar(n % 10)]
  }

  /** The last `width` digits of n, zero-padded: what remains of n modulo
      10^width, spelt with exactly `width` digits. */
  function ZeroPadded(n: nat, width: nat): (s: string)
    ensures |s| == width && AllDigits(s)
    ensures DecimalValue(s) == n % Pow10(width)
  {
    if width == 0 then ""
    else
      var s := ZeroPadded(n / 10, width - 1) + [DigitChar(n % 10)];
      assert s[..|s| - 1] == ZeroPadded(n / 10, width - 1);
      LastDigits(n, Pow10(width - 1));
      s
  }

  /** n modulo 10p, split into its last digit and the rest modulo p. */
  lemma LastDigits(n: nat, p: nat)
    requires p >= 1
    ensures n % (10 * p) == (n / 10) % p * 10 + n % 10
  {
    var q, r := n / 10, n % 10;
    var a, b := q / p, q % p;
    assert n == a * (10 * p) + (b * 10 + r);
    DivModUnique(n, 10 * p, a, b * 10 + r);
  }

  lemma {:induction false} DecimalStringLength(n: nat, k: nat)
    requires n >= Pow10(k)
    ensures |DecimalString(n)| > k
  {
    if k > 0 {
      DecimalStringLength(n / 10, k - 1);
    }
  }

  /** The last `width` characters of `str(n)` are n zero-padded to `width`. */
  lemma {:induction false} DecimalStringSuffix(n: nat, width: nat)
    requires width <= |DecimalString(n)|
    ensures DecimalString(n)[|DecimalString(n)| - width..] == ZeroPadded(n, width)
  {
    if width > 0 {
      var s := DecimalString(n);
      var last := DigitChar(n % 10);
      var z := ZeroPadded(n / 10, width - 1);
      assert ZeroPadded(n, width) == z + [last];
      if n < 10 {
        assert s == [last] && width == 1 && z == "";
        assert s[|s| - width..] == s;
      } else {
        var t := DecimalString(n / 10);
        assert s == t + [last];
        assert t[|t| - (width - 1)..] == z by {
          DecimalStringSuffix(n / 10, width - 1);
        }
        assert s[|s| - width..] == t[|t| - (width - 1)..] + [last];
      }
    }
  }

  /** The library's formatting of a truncated value: the last `CodeDigits`
      characters of `str(10_000_000_000 + value % 10^CodeDigits)`. */
  function FormatCode(value: nat): (s: string)
    ensures s == ZeroPadded(value, CodeDigits)
  {
    var padded := 10_000_000_000 + value % Pow10(CodeDigits);
    var t := DecimalString(padded);
    DecimalStringLength(padded, CodeDigits);
    DecimalStringSuffix(padded, CodeDigits);
    assert padded % Pow10(CodeDigits) == value % Pow10(CodeDigits);
    assert ZeroPadded(padded, CodeDigits) == ZeroPadded(value, CodeDigits) by {
      ZeroPaddedModulus(padded, value, CodeDigits);
    }
    t[|t| - CodeDigits..]
  }

  /** Two numbers that agree modulo 10^width have the same last `width` digits. */
  lemma {:induction false} ZeroPaddedModulus(m: nat, n: nat, width: nat)
    requires m % Pow10(width) == n % Pow10(width)
    ensures ZeroPadded(m, width) == ZeroPadded(n, width)
  {
    if width > 0 {
      LastDigits(m, Pow10(width - 1));
      LastDigits(n, Pow10(width - 1));
      ZeroPaddedModulus(m / 10, n / 10, width - 1);
    }
  }

  /** A TOTP code: exactly six decimal digits. */
  predicate IsCode(s: string) {
    |s| == CodeDigits && AllDigits(s)
  }

  /** HOTP(K, C): the truncated HMAC of the counter, reduced modulo 10^6 and
      written with six digits. */
  function Code(hmac: HmacSha1, key: seq<byte>, counter: nat): (s: string)
    ensures IsCode(s)
    ensures DecimalValue(s) == Truncate(hmac(key, CounterBytes(counter))) % Pow10(CodeDigits)
  {
    FormatCode(Truncate(hmac(key, CounterBytes(counter))))
  }
}
