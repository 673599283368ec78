/** Base64, section 4 of RFC 4648: the canonical encoder (`base64.b64encode`)
    and the decoder `base64.b64decode` applies by default, which is CPython's
    non-validating `binascii.a2b_base64`. */
module Base64 {
  import opened Common

  const Pad: char := '='

  predicate IsSymbol(c: char) {
    'A' <= c <= 'Z' || 'a' <= c <= 'z' || '0' <= c <= '9' || c == '+' || c == '/'
  }

  /** The symbol for a 6-bit value: `A`-`Z`, `a`-`z`, `0`-`9`, `+`, `/`. */
  function Symbol(v: int): (c: char)
    requires 0 <= v < 64
    ensures IsSymbol(c)
  {
    if v < 26 then ('A' as int + v) as char
    else if v < 52 then ('a' as int + v - 26) as char
    else if v < 62 then ('0' as int + v - 52) as char
    else if v == 62 then '+'
    else '/'
  }

  /** The 6-bit value of an alphabet symbol. */
  function SymbolValue(c: char): (v: int)
    requires IsSymbol(c)
    ensures 0 <= v < 64 && Symbol(v) == c
  {
    if 'A' <= c <= 'Z' then c as int - 'A' as int
    else if 'a' <= c <= 'z' then c as int - 'a' as int + 26
    else if '0' <= c <= '9' then c as int - '0' as int + 52
    else if c == '+' then 62
    else 63
  }

  lemma SymbolOfValue(v: int)
    requires 0 <= v < 64
    ensures SymbolValue(Symbol(v)) == v
  {
  }

  predicate IsAscii(s: string) {
    forall i :: 0 <= i < |s| ==> s[i] < 128 as char
  }

  // ---------------------------------------------------------------------
  // Decoding.

  /** Bounds on the bits carried over between the symbols of a quad: six
      after the first symbol, four after the second, two after the third. */
  predicate Carry(quadPos: nat, left: nat) {
    quadPos < 4 &&
    (quadPos == 0 ==> left == 0) &&
    (quadPos == 1 ==> left < 64) &&
    (quadPos == 2 ==> left < 16) &&
    (quadPos == 3 ==> left < 4)
  }

  /** The decoding loop from the given state over the rest of the text.
      `quadPos` symbols of the current quad have been read, `left` holds
      their bits not yet emitted and `pads` counts the `=` seen since the
      last symbol. A character outside the alphabet is skipped; a `=` that
      completes the quad ends decoding, whatever follows; text that ends
      inside a quad is an error (None). */
  function DecodeLoop(s: string, quadPos: nat, left: nat, pads: nat, out: seq<byte>): (r: Option<seq<byte>>)
    requires Carry(quadPos, left)
    ensures r.Some? ==> out <= r.value
    ensures r.Some? ==> 4 * (|r.value| - |out|) <= 3 * |s| + (if quadPos == 0 then 0 else 4 - quadPos)
    decreases |s|
  {
    if s == [] then
      if quadPos == 0 then Some(out) else None
    else if s[0] == Pad then
      if quadPos >= 2 && quadPos + pads + 1 >= 4 then Some(out)
      else DecodeLoop(s[1..], quadPos, left, if quadPos >= 2 then pads + 1 else pads, out)
    else if !IsSymbol(s[0]) then
      DecodeLoop(s[1..], quadPos, left, pads, out)
    else
      var v := SymbolValue(s[0]);
      if quadPos == 0 then DecodeLoop(s[1..], 1, v, 0, out)
      else if quadPos == 1 then DecodeLoop(s[1..], 2, v % 16, 0, out + [left * 4 + v / 16])
      else if quadPos == 2 then DecodeLoop(s[1..], 3, v % 4, 0, out + [left * 16 + v / 4])
      else DecodeLoop(s[1..], 0, 0, 0, out + [left * 64 + v])
  }

  /** `base64.b64decode(s)`: a text with a character outside ASCII is
      refused; otherwise the decoding loop runs from the start state. */
  function Decode(s: string): (r: Option<seq<byte>>)
    ensures r.Some? ==> IsAscii(s)
    ensures r.Some? ==> 4 * |r.value| <= 3 * |s|
  {
    if !IsAscii(s) then None else DecodeLoop(s, 0, 0, 0, [])
  }

  // ---------------------------------------------------------------------
  // Encoding.

  /** The four 6-bit groups of a 24-bit quantum. */
  function QuantumDigits(b0: byte, b1: byte, b2: byte): (d: seq<int>)
    ensures |d| == 4 && forall i :: 0 <= i < 4 ==> 0 <= d[i] < 64
  {
    [b0 / 4, (b0 % 4) * 16 + b1 / 16, (b1 % 16) * 4 + b2 / 64, b2 % 64]
  }

  function Symbols(d: seq<int>): (s: string)
    requires forall i :: 0 <= i < |d| ==> 0 <= d[i] < 64
    ensures |s| == |d| && forall i :: 0 <= i < |s| ==> s[i] == Symbol(d[i]) && IsSymbol(s[i])
  {
    if d == [] then "" else [Symbol(d[0])] + Symbols(d[1..])
  }

  /** `base64.b64encode`: each 3 octets become 4 symbols; a last group of
      one or two octets is padded with zero bits and completed with `=`. */
  function Encode(b: seq<byte>): (s: string)
    decreases |b|
  {
    if |b| >= 3 then Symbols(QuantumDigits(b[0], b[1], b[2])) + Encode(b[3..])
    else if |b| == 2 then Symbols(QuantumDigits(b[0], b[1], 0)[..3]) + [Pad]
    else if |b| == 1 then Symbols(QuantumDigits(b[0], 0, 0)[..2]) + [Pad, Pad]
    else ""
  }

  // ---------------------------------------------------------------------
  // Properties.

  lemma {:induction false} EncodeIsAscii(b: seq<byte>)
    ensures IsAscii(Encode(b))
    decreases |b|
  {
    if |b| >= 3 {
      EncodeIsAscii(b[3..]);
    }
  }

  /** Reading one full quad of symbols emits its three octets and returns
      the decoder to the start of a quad. */
  lemma DecodeQuad(b0: byte, b1: byte, b2: byte, rest: string, out: seq<byte>)
    ensures DecodeLoop(Symbols(QuantumDigits(b0, b1, b2)) + rest, 0, 0, 0, out)
            == DecodeLoop(rest, 0, 0, 0, out + [b0, b1, b2])
  {
    var d := QuantumDigits(b0, b1, b2);
    var s0 := Symbols(d) + rest;
    var s1, s2, s3 := s0[1..], s0[2..], s0[3..];
    assert s0[4..] == rest;
    assert s0[0] == Symbol(d[0]) && s1[0] == Symbol(d[1]) && s2[0] == Symbol(d[2]) && s3[0] == Symbol(d[3]);
    assert s1[1..] == s2 && s2[1..] == s3 && s3[1..] == s0[4..];
    SymbolOfValue(d[0]);
    SymbolOfValue(d[1]);
    SymbolOfValue(d[2]);
    SymbolOfValue(d[3]);
    Split(b0 % 4, b1 / 16, 16);
    Split(b1 % 16, b2 / 64, 4);
    assert d[0] * 4 + d[1] / 16 == b0;
    assert (d[1] % 16) * 16 + d[2] / 4 == b1;
    assert (d[2] % 4) * 64 + d[3] == b2;
    calc {
      DecodeLoop(s0, 0, 0, 0, out);
      DecodeLoop(s1, 1, d[0], 0, out);
      DecodeLoop(s2, 2, d[1] % 16, 0, out + [b0]);
      DecodeLoop(s3, 3, d[2] % 4, 0, out + [b0] + [b1]);
      DecodeLoop(rest, 0, 0, 0, out + [b0] + [b1] + [b2]);
      { assert out + [b0] + [b1] + [b2] == out + [b0, b1, b2]; }
      DecodeLoop(rest, 0, 0, 0, out + [b0, b1, b2]);
    }
  }

  /** A final group of two octets: three symbols and one `=`, which
      completes the quad. */
  lemma DecodeFinalTwo(b0: byte, b1: byte, out: seq<byte>)
    ensures DecodeLoop(Encode([b0, b1]), 0, 0, 0, out) == Some(out + [b0, b1])
  {
    var d := QuantumDigits(b0, b1, 0);
    var s0 := Encode([b0, b1]);
    var sym := Symbols(d[..3]);
    assert s0 == sym + [Pad] && |sym| == 3;
    var s1, s2, s3 := s0[1..], s0[2..], s0[3..];
    assert s0[0] == sym[0] == Symbol(d[0]);
    assert s1[0] == sym[1] == Symbol(d[1]);
    assert s2[0] == sym[2] == Symbol(d[2]);
    assert s1[1..] == s2 && s2[1..] == s3 && s3 == [Pad];
    SymbolOfValue(d[0]);
    SymbolOfValue(d[1]);
    SymbolOfValue(d[2]);
    Split(b0 % 4, b1 / 16, 16);
    Split(b1 % 16, 0, 4);
    assert d[0] * 4 + d[1] / 16 == b0;
    assert (d[1] % 16) * 16 + d[2] / 4 == b1;
    calc {
      DecodeLoop(s0, 0, 0, 0, out);
      DecodeLoop(s1, 1, d[0], 0, out);
      DecodeLoop(s2, 2, d[1] % 16, 0, out + [b0]);
      DecodeLoop(s3, 3, d[2] % 4, 0, out + [b0] + [b1]);
      { assert out + [b0] + [b1] == out + [b0, b1]; }
      Some(out + [b0, b1]);
    }
  }

  /** A final group of one octet: two symbols and two `=`; the first `=`
      is counted, the second completes the quad. */
  lemma DecodeFinalOne(b0: byte, out: seq<byte>)
    ensures DecodeLoop(Encode([b0]), 0, 0, 0, out) == Some(out + [b0])
  {
    var d := QuantumDigits(b0, 0, 0);
    var s0 := Encode([b0]);
    assert |Symbols(d[..2])| == 2;
    var s1, s2, s3 := s0[1..], s0[2..], s0[3..];
    assert s0[0] == Symbol(d[0]) && s1[0] == Symbol(d[1]);
    assert s1[1..] == s2 && s2 == [Pad, Pad] && s2[1..] == s3 && s3 == [Pad];
    SymbolOfValue(d[0]);
    SymbolOfValue(d[1]);
    Split(b0 % 4, 0, 16);
    assert d[0] * 4 + d[1] / 16 == b0;
    calc {
      DecodeLoop(s0, 0, 0, 0, out);
      DecodeLoop(s1, 1, d[0], 0, out);
      DecodeLoop(s2, 2, d[1] % 16, 0, out + [b0]);
      DecodeLoop(s3, 2, d[1] % 16, 1, out + [b0]);
      Some(out + [b0]);
    }
  }

  /** Decoding the canonical encoding gives back exactly the octets. */
  lemma {:induction false} DecodeLoopEncode(b: seq<byte>, out: seq<byte>)
    ensures DecodeLoop(Encode(b), 0, 0, 0, out) == Some(out + b)
    decreases |b|
  {
    if |b| >= 3 {
      DecodeQuad(b[0], b[1], b[2], Encode(b[3..]), out);
      DecodeLoopEncode(b[3..], out + [b[0], b[1], b[2]]);
      assert out + [b[0], b[1], b[2]] + b[3..] == out + b;
    } else if |b| == 2 {
      DecodeFinalTwo(b[0], b[1], out);
      assert [b[0], b[1]] == b;
    } else if |b| == 1 {
      DecodeFinalOne(b[0], out);
      assert [b[0]] == b;
    } else {
      assert Encode(b) == "" && out + b == out;
    }
  }

  lemma DecodeEncode(b: seq<byte>)
    ensures Decode(Encode(b)) == Some(b)
  {
    EncodeIsAscii(b);
    DecodeLoopEncode(b, []);
    assert [] + b == b;
  }

  /** A character that is neither a symbol nor `=` (a line break, say) is
      skipped wherever it stands. */
  lemma {:induction false} DecodeLoopSkips(x: string, c: char, y: string, quadPos: nat, left: nat, pads: nat, out: seq<byte>)
    requires Carry(quadPos, left)
    requires !IsSymbol(c) && c != Pad
    ensures DecodeLoop(x + [c] + y, quadPos, left, pads, out) == DecodeLoop(x + y, quadPos, left, pads, out)
    decreases |x|
  {
    if x == [] {
      assert x + [c] + y == [c] + y && ([c] + y)[1..] == y && x + y == y;
    } else {
      assert (x + [c] + y)[0] == x[0] && (x + y)[0] == x[0];
      assert (x + [c] + y)[1..] == x[1..] + [c] + y;
      assert (x + y)[1..] == x[1..] + y;
      var v := if IsSymbol(x[0]) then SymbolValue(x[0]) else 0;
      if x[0] == Pad {
        DecodeLoopSkips(x[1..], c, y, quadPos, left, if quadPos >= 2 then pads + 1 else pads, out);
      } else if !IsSymbol(x[0]) {
        DecodeLoopSkips(x[1..], c, y, quadPos, left, pads, out);
      } else if quadPos == 0 {
        DecodeLoopSkips(x[1..], c, y, 1, v, 0, out);
      } else if quadPos == 1 {
        DecodeLoopSkips(x[1..], c, y, 2, v % 16, 0, out + [left * 4 + v / 16]);
      } else if quadPos == 2 {
        DecodeLoopSkips(x[1..], c, y, 3, v % 4, 0, out + [left * 16 + v / 4]);
      } else {
        DecodeLoopSkips(x[1..], c, y, 0, 0, 0, out + [left * 64 + v]);
      }
    }
  }

  /** The same for `b64decode` itself, for an ASCII character: inserting
      it into a text never changes the result. A non-ASCII character makes
      the whole text refused instead. */
  lemma DecodeSkips(x: string, c: char, y: string)
    requires c < 128 as char && !IsSymbol(c) && c != Pad
    ensures Decode(x + [c] + y) == Decode(x + y)
  {
    var s, t := x + [c] + y, x + y;
    assert IsAscii(s) <==> IsAscii(t) by {
      assert forall i :: 0 <= i < |x| ==> s[i] == x[i] && t[i] == x[i];
      assert forall i :: 0 <= i < |y| ==> s[|x| + 1 + i] == y[i] && t[|x| + i] == y[i];
      assert s[|x|] == c;
      if IsAscii(t) {
        forall i | 0 <= i < |s| ensures s[i] < 128 as char {
          if i < |x| {
            assert s[i] == t[i];
          } else if |x| < i {
            assert s[i] == t[i - 1];
          }
        }
      }
      if IsAscii(s) {
        forall i | 0 <= i < |t| ensures t[i] < 128 as char {
          if i < |x| {
            assert t[i] == s[i];
          } else {
            assert t[i] == s[i + 1];
          }
        }
      }
    }
    DecodeLoopSkips(x, c, y, 0, 0, 0, []);
  }
}
