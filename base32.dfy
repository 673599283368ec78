/** Base32 with padding, as in section 6 of RFC 4648 (Python's `base64.b32encode`)
    together with the decoder the TOTP library applies to the secret. */
module Base32 {
  import opened Common

  const Pad: char := '='

  predicate IsSymbol(c: char) {
    'A' <= c <= 'Z' || '2' <= c <= '7'
  }

  /** The symbol for a 5-bit value: `A`-`Z`, then `2`-`7`. */
  function Symbol(v: int): (c: char)
    requires 0 <= v < 32
    ensures IsSymbol(c)
  {
    if v < 26 then ('A' as int + v) as char else ('2' as int + v - 26) as char
  }

  /** The 5-bit value of an alphabet symbol. */
  function SymbolValue(c: char): (v: int)
    requires IsSymbol(c)
    ensures 0 <= v < 32 && Symbol(v) == c
  {
    if 'A' <= c <= 'Z' then c as int - 'A' as int else c as int - '2' as int + 26
  }

  lemma SymbolOfValue(v: int)
    requires 0 <= v < 32
    ensures SymbolValue(Symbol(v)) == v
  {
  }

  /** The eight 5-bit groups of a 40-bit quantum, most significant first. */
  function QuantumDigits(b: seq<byte>): (d: seq<int>)
    requires |b| == 5
    ensures |d| == 8 && forall i :: 0 <= i < 8 ==> 0 <= d[i] < 32
  {
    [ b[0] / 8,
      (b[0] % 8) * 4 + b[1] / 64,
      (b[1] / 2) % 32,
      (b[1] % 2) * 16 + b[2] / 16,
      (b[2] % 16) * 2 + b[3] / 128,
      (b[3] / 4) % 32,
      (b[3] % 4) * 8 + b[4] / 32,
      b[4] % 32 ]
  }

  /** The five octets of a 40-bit quantum given as eight 5-bit groups. */
  function QuantumBytes(d: seq<int>): (b: seq<byte>)
    requires |d| == 8 && forall i :: 0 <= i < 8 ==> 0 <= d[i] < 32
    ensures |b| == 5
  {
    [ d[0] * 8 + d[1] / 4,
      (d[1] % 4) * 64 + d[2] * 2 + d[3] / 16,
      (d[3] % 16) * 16 + d[4] / 2,
      (d[4] % 2) * 128 + d[5] * 4 + d[6] / 8,
      (d[6] % 8) * 32 + d[7] ]
  }

  /** An octet cut into its top bits, five middle bits and `low` (2 or 4)
      worth of low bits, and joined again. */
  lemma MiddleBits(x: byte, low: int)
    requires low == 2 || low == 4
    ensures (x / (32 * low)) * (32 * low) + ((x / low) % 32) * low + x % low == x
  {
    var h := x / low;
    assert x == h * low + x % low;
    assert h == (h / 32) * 32 + h % 32;
    Split(h / 32, (h % 32) * low + x % low, 32 * low);
    assert x == (h / 32) * (32 * low) + (h % 32) * low + x % low;
  }

  lemma QuantumRoundTrip(b: seq<byte>)
    requires |b| == 5
    ensures QuantumBytes(QuantumDigits(b)) == b
  {
    var d := QuantumDigits(b);
    Split(b[0] % 8, b[1] / 64, 4);
    Split(b[1] % 2, b[2] / 16, 16);
    Split(b[2] % 16, b[3] / 128, 2);
    Split(b[3] % 4, b[4] / 32, 8);
    MiddleBits(b[1], 2);
    MiddleBits(b[3], 4);
    var r := QuantumBytes(d);
    assert r[0] == b[0];
    assert r[1] == b[1];
    assert r[2] == b[2];
    assert r[3] == b[3];
    assert r[4] == b[4];
  }

  /** The symbols that spell a sequence of 5-bit values. */
  function Symbols(d: seq<int>): (s: string)
    requires forall i :: 0 <= i < |d| ==> 0 <= d[i] < 32
    ensures |s| == |d|
    ensures forall i :: 0 <= i < |s| ==> s[i] == Symbol(d[i]) && IsSymbol(s[i])
  {
    if d == [] then "" else [Symbol(d[0])] + Symbols(d[1..])
  }

  /** The 5-bit values spelt by a sequence of symbols. */
  function Values(s: string): (d: seq<int>)
    requires forall i :: 0 <= i < |s| ==> IsSymbol(s[i])
    ensures |d| == |s|
    ensures forall i :: 0 <= i < |d| ==> 0 <= d[i] < 32 && d[i] == SymbolValue(s[i])
  {
    if s == [] then [] else [SymbolValue(s[0])] + Values(s[1..])
  }

  lemma ValuesOfSymbols(d: seq<int>)
    requires forall i :: 0 <= i < |d| ==> 0 <= d[i] < 32
    ensures Values(Symbols(d)) == d
  {
    var s := Symbols(d);
    forall i | 0 <= i < |d| ensures Values(s)[i] == d[i] {
      SymbolOfValue(d[i]);
    }
  }

  /** How many data symbols (not padding) encode n octets: ceil(8n / 5). */
  function SymbolCount(n: nat): (k: nat)
    ensures 8 * n <= 5 * k < 8 * n + 5
  {
    (8 * n + 4) / 5
  }

  /** How many octets the final quantum carries when it ends in p pad characters. */
  function OctetCount(p: nat): (n: nat)
    requires p <= 8
    ensures p in {0, 1, 3, 4, 6} ==> 1 <= n <= 5 && SymbolCount(n) == 8 - p
  {
    (43 - 5 * p) / 8
  }

  /** Python's `base64.b32encode`: full 40-bit quanta, then a final partial
      quantum padded with zero bits and with `=` up to eight characters. */
  function Encode(b: seq<byte>): (s: string)
    ensures |s| % 8 == 0
    ensures |s| == 0 <==> |b| == 0
    decreases |b|
  {
    if |b| == 0 then ""
    else if |b| >= 5 then Symbols(QuantumDigits(b[..5])) + Encode(b[5..])
    else EncodeFinal(b)
  }

  function EncodeFinal(b: seq<byte>): (s: string)
    requires 0 < |b| < 5
    ensures |s| == 8
  {
    var d := QuantumDigits(PadQuantum(b));
    var k := SymbolCount(|b|);
    Symbols(d[..k]) + seq(8 - k, _ => Pad)
  }

  /** The number of pad characters at the end of s. */
  function TrailingPads(s: string): (n: nat)
    ensures n <= |s|
    ensures forall i :: |s| - n <= i < |s| ==> s[i] == Pad
    ensures n < |s| ==> s[|s| - n - 1] != Pad
  {
    if |s| > 0 && s[|s| - 1] == Pad then TrailingPads(s[..|s| - 1]) + 1 else 0
  }

  /** The decoder of section 6 of RFC 4648: the text is a sequence of
      8-character quanta and only the last may end in 1, 3, 4 or 6 pad
      characters. None stands for a decoding error. */
  function Decode(s: string): (r: Option<seq<byte>>)
    ensures r.Some? ==> |s| % 8 == 0
    ensures r.Some? ==> |r.value| <= 5 * (|s| / 8)
    decreases |s|
  {
    if |s| == 0 then Some([])
    else if |s| < 8 then None
    else if |s| == 8 then DecodeFinal(s)
    else if forall i :: 0 <= i < 8 ==> IsSymbol(s[i]) then
      match Decode(s[8..])
      case None => None
      case Some(rest) =>
        assert |s| / 8 == |s[8..]| / 8 + 1 && |s| % 8 == |s[8..]| % 8;
        Some(QuantumBytes(Values(s[..8])) + rest)
    else None
  }

  /** The last quantum: it carries one to five octets. */
  function DecodeFinal(q: string): (r: Option<seq<byte>>)
    requires |q| == 8
    ensures r.Some? ==> 1 <= |r.value| <= 5
  {
    var p := TrailingPads(q);
    if p !in {0, 1, 3, 4, 6} then None
    else if exists i :: 0 <= i < 8 - p && !IsSymbol(q[i]) then None
    else
      var d := Values(q[..8 - p]) + seq(p, _ => 0);
      Some(QuantumBytes(d)[..OctetCount(p)])
  }

  lemma {:induction false} TrailingPadsOf(x: string, m: nat)
    requires |x| > 0 ==> x[|x| - 1] != Pad
    ensures TrailingPads(x + seq(m, _ => Pad)) == m
  {
    if m > 0 {
      var s := x + seq(m, _ => Pad);
      assert s[..|s| - 1] == x + seq(m - 1, _ => Pad);
      TrailingPadsOf(x, m - 1);
    } else {
      assert x + seq(m, _ => Pad) == x;
    }
  }

  /** The zero-padded final quantum of 1 to 4 octets. */
  function PadQuantum(b: seq<byte>): (p: seq<byte>)
    requires |b| < 5
    ensures |p| == 5 && p[..|b|] == b
  {
    b + seq(5 - |b|, _ => 0)
  }

  lemma FinalCounts(n: nat)
    requires 0 < n < 5
    ensures SymbolCount(n) in {2, 4, 5, 7} && OctetCount(8 - SymbolCount(n)) == n
  {
    if n == 1 {
    } else if n == 2 {
    } else if n == 3 {
    } else {
    }
  }

  lemma EncodeFinalLayout(b: seq<byte>)
    requires 0 < |b| < 5
    ensures SymbolCount(|b|) <= 8
    ensures EncodeFinal(b)[..SymbolCount(|b|)] == Symbols(QuantumDigits(PadQuantum(b))[..SymbolCount(|b|)])
    ensures forall i :: SymbolCount(|b|) <= i < 8 ==> EncodeFinal(b)[i] == Pad
  {
    FinalCounts(|b|);
  }

  /** The values a decoder reads back from a final quantum, with its pad
      characters read as zero, are the digits the encoder computed. */
  lemma FinalValues(b: seq<byte>)
    requires 0 < |b| < 5
    ensures SymbolCount(|b|) <= 8
    ensures forall i :: 0 <= i < SymbolCount(|b|) ==> IsSymbol(EncodeFinal(b)[i])
    ensures Values(EncodeFinal(b)[..SymbolCount(|b|)]) + seq(8 - SymbolCount(|b|), _ => 0)
            == QuantumDigits(PadQuantum(b))
  {
    var d := QuantumDigits(PadQuantum(b));
    var k := SymbolCount(|b|);
    EncodeFinalLayout(b);
    assert forall i :: 0 <= i < k ==> IsSymbol(EncodeFinal(b)[..k][i]);
    ValuesOfSymbols(d[..k]);
    PaddedDigitsVanish(b, PadQuantum(b));
    assert d[..k] + seq(8 - k, _ => 0) == d;
  }

  lemma {:induction false} DecodeEncodeFinal(b: seq<byte>)
    requires 0 < |b| < 5
    ensures DecodeFinal(EncodeFinal(b)) == Some(b)
  {
    var k := SymbolCount(|b|);
    FinalCounts(|b|);
    EncodeFinalLayout(b);
    FinalValues(b);
    DecodeFinalOf(EncodeFinal(b), k);
    QuantumRoundTrip(PadQuantum(b));
  }

  /** A final quantum of k data symbols and 8 - k pad characters. */
  lemma DecodeFinalOf(q: string, k: nat)
    requires |q| == 8 && k in {2, 4, 5, 7, 8}
    requires forall i :: 0 <= i < k ==> IsSymbol(q[i])
    requires forall i :: k <= i < 8 ==> q[i] == Pad
    ensures DecodeFinal(q) == Some(QuantumBytes(Values(q[..k]) + seq(8 - k, _ => 0))[..OctetCount(8 - k)])
  {
    var x := q[..k];
    assert TrailingPads(q) == 8 - k by {
      assert q == x + seq(8 - k, _ => Pad);
      assert x[|x| - 1] == q[k - 1];
      TrailingPadsOf(x, 8 - k);
    }
    var p := 8 - k;
    assert p in {0, 1, 3, 4, 6};
    assert !exists i :: 0 <= i < 8 - p && !IsSymbol(q[i]);
  }

  /** The symbols beyond the data symbols of a final quantum come from the
      zero bits that pad it, so they are all zero. */
  lemma PaddedDigitsVanish(b: seq<byte>, padded: seq<byte>)
    requires 0 < |b| < 5 && padded == PadQuantum(b)
    ensures forall i :: SymbolCount(|b|) <= i < 8 ==> QuantumDigits(padded)[i] == 0
  {
    assert forall j :: |b| <= j < 5 ==> padded[j] == 0;
    if |b| == 1 {
      assert padded[1] == 0 && padded[2] == 0 && padded[3] == 0 && padded[4] == 0;
    } else if |b| == 2 {
      assert padded[2] == 0 && padded[3] == 0 && padded[4] == 0;
    } else if |b| == 3 {
      assert padded[3] == 0 && padded[4] == 0;
    } else {
      assert padded[4] == 0;
    }
  }

  /** A full quantum in front of a non-empty rest decodes on its own. */
  lemma DecodeQuantumThen(q: string, rest: string)
    requires |q| == 8 && |rest| > 0
    requires forall i :: 0 <= i < 8 ==> IsSymbol(q[i])
    ensures Decode(q + rest) == match Decode(rest)
                               case None => None
                               case Some(t) => Some(QuantumBytes(Values(q)) + t)
  {
    var s := q + rest;
    assert s[..8] == q && s[8..] == rest;
  }

  /** One full quantum decodes to its five octets. */
  lemma DecodeQuantum(b: seq<byte>)
    requires |b| == 5
    ensures Decode(Encode(b)) == Some(b)
  {
    EncodeQuantum(b);
    DecodeSymbols(QuantumDigits(b));
    QuantumRoundTrip(b);
  }

  /** Five octets encode to one full quantum with no padding. */
  lemma EncodeQuantum(b: seq<byte>)
    requires |b| == 5
    ensures Encode(b) == Symbols(QuantumDigits(b))
  {
    assert b[..5] == b && b[5..] == [];
    assert Symbols(QuantumDigits(b)) + "" == Symbols(QuantumDigits(b));
  }

  /** Eight symbols with no padding decode to the five octets of their
      values. */
  lemma DecodeSymbols(d: seq<int>)
    requires |d| == 8 && forall i :: 0 <= i < 8 ==> 0 <= d[i] < 32
    ensures Decode(Symbols(d)) == Some(QuantumBytes(d))
  {
    var q := Symbols(d);
    assert Decode(q) == DecodeFinal(q);
    var e := Values(q[..8]) + seq(0, _ => 0);
    assert e == d by {
      assert q[..8] == q;
      ValuesOfSymbols(d);
    }
    assert DecodeFinal(q) == Some(QuantumBytes(e)[..OctetCount(0)]) by {
      DecodeFinalOf(q, 8);
    }
    assert OctetCount(0) == 5;
    assert QuantumBytes(d)[..5] == QuantumBytes(d);
  }

  /** Decoding what `b32encode` produced gives back exactly the octets. */
  lemma {:induction false} DecodeEncode(b: seq<byte>)
    ensures Decode(Encode(b)) == Some(b)
    decreases |b|
  {
    if |b| == 5 {
      DecodeQuantum(b);
    } else if |b| > 5 {
      var d := QuantumDigits(b[..5]);
      var q := Symbols(d);
      ValuesOfSymbols(d);
      QuantumRoundTrip(b[..5]);
      EncodeLength(b[5..]);
      DecodeEncode(b[5..]);
      DecodeQuantumThen(q, Encode(b[5..]));
      assert b == b[..5] + b[5..];
    } else if |b| > 0 {
      DecodeEncodeFinal(b);
    }
  }

  /** Alphabet symbols up to position k, pad characters from there on. */
  predicate SymbolsThenPads(s: string, k: nat) {
    && k <= |s|
    && (forall i :: 0 <= i < k ==> IsSymbol(s[i]))
    && (forall i :: k <= i < |s| ==> s[i] == Pad)
  }

  lemma SymbolsThenPadsConcat(q: string, t: string, k: nat)
    requires forall i :: 0 <= i < |q| ==> IsSymbol(q[i])
    requires SymbolsThenPads(t, k)
    ensures SymbolsThenPads(q + t, |q| + k)
  {
    var s := q + t;
    forall i | |q| <= i < |s| ensures s[i] == t[i - |q|] { }
  }

  /** The encoding of n octets is 8 * ceil(n / 5) characters. */
  lemma {:induction false} EncodeLength(b: seq<byte>)
    ensures |Encode(b)| == 8 * ((|b| + 4) / 5)
    decreases |b|
  {
    if |b| >= 5 {
      EncodeLength(b[5..]);
      assert (|b| + 4) / 5 == (|b| - 5 + 4) / 5 + 1;
    }
  }

  lemma EncodeLengthMultiple(b: seq<byte>)
    ensures |Encode(b)| % 8 == 0
  {
    EncodeLength(b);
    EightTimes((|b| + 4) / 5);
  }

  lemma EightTimes(q: int)
    ensures (8 * q) % 8 == 0
  {
    Split(q, 0, 8);
    assert 8 * q == q * 8 + 0;
  }

  /** The encoding of n octets is ceil(8n / 5) alphabet symbols followed by
      nothing but `=` padding. */
  lemma {:induction false} EncodeLayout(b: seq<byte>)
    ensures SymbolsThenPads(Encode(b), SymbolCount(|b|))
    decreases |b|
  {
    if |b| >= 5 {
      EncodeLayout(b[5..]);
      var q := Symbols(QuantumDigits(b[..5]));
      assert SymbolCount(|b|) == 8 + SymbolCount(|b| - 5);
      SymbolsThenPadsConcat(q, Encode(b[5..]), SymbolCount(|b| - 5));
    } else if |b| > 0 {
      EncodeFinalLayout(b);
      var k := SymbolCount(|b|);
      assert forall i :: 0 <= i < k ==> IsSymbol(EncodeFinal(b)[..k][i]);
    }
  }
}
