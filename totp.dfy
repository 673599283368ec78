/** `app/totp_utils.py`: the hex seed re-encoded as the base32 secret the TOTP
    library takes, and TOTP (RFC 6238) generation and verification with a
    30-second step, six digits and HMAC-SHA-1. The clock is a parameter: `t`
    is the Unix time in whole seconds at which the library reads it. */
module TotpUtils {
  import opened Common
  import Hex
  import Base32
  import opened Hotp

  /** `interval=30`. */
  const Interval: nat := 30

  /** The time step of section 4.2 of RFC 6238, with T0 = 0: the number of
      whole periods elapsed, so t lies in the period it names. */
  function TimeStep(t: nat): (n: nat)
    ensures Interval * n <= t < Interval * n + Interval
  {
    t / Interval
  }

  /** `_hex_to_base32`: hex text to octets (`bytes.fromhex`), octets to padded
      base32 (`base64.b32encode`). None: `bytes.fromhex` raised. The secret it
      returns decodes back to exactly the octets the hex spelt. */
  function HexToBase32(hexSeed: string): (r: Option<string>)
    ensures r.Some? <==> Hex.FromHex(hexSeed).Some?
    ensures r.Some? ==> Base32.Decode(r.value) == Hex.FromHex(hexSeed)
    ensures r.Some? ==> |r.value| % 8 == 0
  {
    match Hex.FromHex(hexSeed)
    case None => None
    case Some(b) =>
      Base32.DecodeEncode(b);
      Base32.EncodeLengthMultiple(b);
      Some(Base32.Encode(b))
  }

  /** The secret with `=` appended up to the next multiple of eight
      characters: the shortest such extension, so a secret of such a length
      already is left as it is. */
  function PadSecret(secret: string): (p: string)
    ensures |p| % 8 == 0 && |secret| <= |p| < |secret| + 8
    ensures p[..|secret|] == secret
    ensures forall i :: |secret| <= i < |p| ==> p[i] == Base32.Pad
  {
    var missing := if |secret| % 8 != 0 then 8 - |secret| % 8 else 0;
    secret + seq(missing, _ => Base32.Pad)
  }

  /** The key the library reads out of its base32 secret: the padded secret,
      base32-decoded. A secret whose length is a multiple of eight is decoded
      as it stands. */
  function ByteSecret(secret: string): (r: Option<seq<byte>>)
    ensures |secret| % 8 == 0 ==> r == Base32.Decode(secret)
  {
    var p := PadSecret(secret);
    assert |secret| % 8 == 0 ==> p == secret;
    Base32.Decode(p)
  }

  /** The HMAC key behind a hex seed is the octets the hex spells. */
  lemma KeyOfHexSeed(hexSeed: string)
    requires Hex.FromHex(hexSeed).Some?
    ensures HexToBase32(hexSeed).Some?
    ensures ByteSecret(HexToBase32(hexSeed).value) == Hex.FromHex(hexSeed)
  {
  }

  /** `generate_totp_code` at time t. None: the seed is not hex. */
  function GenerateTotpCode(hmac: HmacSha1, hexSeed: string, t: nat): (r: Option<string>)
    ensures r.Some? <==> Hex.FromHex(hexSeed).Some?
    ensures r.Some? ==> IsCode(r.value)
    ensures r.Some? ==> r.value == Code(hmac, Hex.FromHex(hexSeed).value, TimeStep(t))
  {
    match HexToBase32(hexSeed)
    case None => None
    case Some(secret) =>
      KeyOfHexSeed(hexSeed);
      match ByteSecret(secret)
      case None => None
      case Some(key) => Some(Code(hmac, key, TimeStep(t)))
  }

  /** Unicode NFKC normalisation, `unicodedata.normalize("NFKC", ·)`, which
      the library applies to both strings before comparing them. It is a
      parameter: the model knows only that a string of ASCII digits, every
      code among them, is already in normal form. */
  type Nfkc = f: string -> string | forall s :: AllDigits(s) ==> f(s) == s witness (s: string) => s

  /** The library's comparison of two strings: equal once normalised. */
  predicate SameText(nfkc: Nfkc, a: string, b: string) {
    nfkc(a) == nfkc(b)
  }

  /** Some code at a step in [step - window, step + window] compares equal
      to the candidate. Only a candidate that normalises to six digits can
      be accepted, and a negative window accepts nothing. */
  predicate Accepts(hmac: HmacSha1, nfkc: Nfkc, key: seq<byte>, candidate: string, step: nat, window: int)
    ensures Accepts(hmac, nfkc, key, candidate, step, window) ==> IsCode(nfkc(candidate))
    ensures window < 0 ==> !Accepts(hmac, nfkc, key, candidate, step, window)
  {
    exists k: nat :: step - window <= k <= step + window && SameText(nfkc, candidate, Code(hmac, key, k))
  }

  /** Some counter from lo to hi has a code that compares equal to the
      candidate. */
  predicate MatchBetween(hmac: HmacSha1, nfkc: Nfkc, key: seq<byte>, candidate: string, lo: int, hi: int) {
    exists k: nat :: lo <= k <= hi && SameText(nfkc, candidate, Code(hmac, key, k))
  }

  /** The library's look-around: the code at each counter from lo up to hi
      in turn is compared with the candidate, stopping at the first match;
      computing the code for a negative counter raises (None). */
  function ScanWindow(hmac: HmacSha1, nfkc: Nfkc, key: seq<byte>, candidate: string, lo: int, hi: int): (r: Option<bool>)
    ensures lo > hi ==> r == Some(false)
    ensures lo <= hi && lo < 0 ==> r == None
    ensures 0 <= lo ==> r == Some(MatchBetween(hmac, nfkc, key, candidate, lo, hi))
    decreases hi + 1 - lo
  {
    if lo > hi then Some(false)
    else if lo < 0 then None
    else if SameText(nfkc, candidate, Code(hmac, key, lo)) then Some(true)
    else
      assert MatchBetween(hmac, nfkc, key, candidate, lo, hi) == MatchBetween(hmac, nfkc, key, candidate, lo + 1, hi) by {
        assert forall k: nat :: lo <= k <= hi && SameText(nfkc, candidate, Code(hmac, key, k)) ==> lo + 1 <= k;
      }
      ScanWindow(hmac, nfkc, key, candidate, lo + 1, hi)
  }

  /** `verify_totp_code(hex_seed, code, valid_window)` at time t. None: an
      exception: the seed is not hex, or the window reaches below counter 0
      (the first counter tried is T - w, which must not be negative). A
      window of 0 compares with the current code only; a negative window
      accepts nothing. */
  function VerifyTotpCode(hmac: HmacSha1, nfkc: Nfkc, hexSeed: string, candidate: string, t: nat, validWindow: int): (r: Option<bool>)
    ensures Hex.FromHex(hexSeed).None? ==> r == None
    ensures Hex.FromHex(hexSeed).Some? && validWindow > 0 && TimeStep(t) < validWindow ==> r == None
    ensures Hex.FromHex(hexSeed).Some? && (validWindow <= 0 || TimeStep(t) >= validWindow) ==>
              r == Some(Accepts(hmac, nfkc, Hex.FromHex(hexSeed).value, candidate, TimeStep(t), validWindow))
  {
    match HexToBase32(hexSeed)
    case None => None
    case Some(secret) =>
      KeyOfHexSeed(hexSeed);
      match ByteSecret(secret)
      case None => None
      case Some(key) =>
        var step := TimeStep(t);
        if validWindow != 0 then
          ScanAccepts(hmac, nfkc, key, candidate, step, validWindow);
          ScanWindow(hmac, nfkc, key, candidate, step - validWindow, step + validWindow)
        else
          assert Accepts(hmac, nfkc, key, candidate, step, 0) <==> SameText(nfkc, candidate, Code(hmac, key, step));
          Some(SameText(nfkc, candidate, Code(hmac, key, step)))
  }

  /** The look-around over [step - w, step + w] raises exactly when it
      starts below counter 0, and otherwise decides acceptance. */
  lemma ScanAccepts(hmac: HmacSha1, nfkc: Nfkc, key: seq<byte>, candidate: string, step: nat, w: int)
    ensures w > 0 && step < w ==> ScanWindow(hmac, nfkc, key, candidate, step - w, step + w) == None
    ensures w < 0 || step >= w ==>
              ScanWindow(hmac, nfkc, key, candidate, step - w, step + w) == Some(Accepts(hmac, nfkc, key, candidate, step, w))
  {
    if w >= 0 && step >= w {
      assert Accepts(hmac, nfkc, key, candidate, step, w) == MatchBetween(hmac, nfkc, key, candidate, step - w, step + w);
    }
  }

  // ---------------------------------------------------------------------
  // Properties.

  /** A 64-character lowercase hex seed spells 32 octets, whose lowercase
      spelling is the seed again. */
  lemma SeedOctets(hexSeed: string)
    requires |hexSeed| == 64 && forall i :: 0 <= i < 64 ==> Hex.IsLowerHexDigit(hexSeed[i])
    ensures Hex.FromHex(hexSeed).Some? && |Hex.FromHex(hexSeed).value| == 32
    ensures Hex.ToHex(Hex.FromHex(hexSeed).value) == hexSeed
  {
    Hex.ToHexFromHex(hexSeed);
  }

  /** The secret made from a 64-character lowercase hex seed is 56
      characters: 52 alphabet symbols, then exactly four `=`. */
  lemma SeedSecretShape(hexSeed: string)
    requires |hexSeed| == 64 && forall i :: 0 <= i < 64 ==> Hex.IsLowerHexDigit(hexSeed[i])
    ensures HexToBase32(hexSeed).Some?
    ensures |HexToBase32(hexSeed).value| == 56
    ensures forall i :: 0 <= i < 52 ==> Base32.IsSymbol(HexToBase32(hexSeed).value[i])
    ensures forall i :: 52 <= i < 56 ==> HexToBase32(hexSeed).value[i] == Base32.Pad
  {
    SeedOctets(hexSeed);
    var b := Hex.FromHex(hexSeed).value;
    var s := HexToBase32(hexSeed).value;
    assert s == Base32.Encode(b);
    Base32.EncodeLength(b);
    Base32.EncodeLayout(b);
    assert |s| == 8 * ((32 + 4) / 5) == 56;
    assert Base32.SymbolCount(32) == 52;
    assert Base32.SymbolsThenPads(s, 52);
  }

  /** Every instant of period k (seconds 30k to 30k + 29) gives the code of
      counter k. */
  lemma CodeOfPeriod(hmac: HmacSha1, hexSeed: string, k: nat, t: nat)
    requires Hex.FromHex(hexSeed).Some?
    requires Interval * k <= t < Interval * k + Interval
    ensures GenerateTotpCode(hmac, hexSeed, t) == Some(Code(hmac, Hex.FromHex(hexSeed).value, k))
  {
    DivModUnique(t, Interval, k, t - Interval * k);
  }

  /** Two instants in the same 30-second period give the same code. */
  lemma SamePeriodSameCode(hmac: HmacSha1, hexSeed: string, t1: nat, t2: nat)
    requires t1 / Interval == t2 / Interval
    ensures GenerateTotpCode(hmac, hexSeed, t1) == GenerateTotpCode(hmac, hexSeed, t2)
  {
  }

  /** A code generated at t is accepted at t with any window the counter
      range allows, window 0 included. */
  lemma VerifyAcceptsGenerated(hmac: HmacSha1, nfkc: Nfkc, hexSeed: string, t: nat, window: int)
    requires Hex.FromHex(hexSeed).Some?
    requires 0 <= window <= TimeStep(t)
    ensures VerifyTotpCode(hmac, nfkc, hexSeed, GenerateTotpCode(hmac, hexSeed, t).value, t, window) == Some(true)
  {
    var key := Hex.FromHex(hexSeed).value;
    var step := TimeStep(t);
    var code := GenerateTotpCode(hmac, hexSeed, t).value;
    assert step - window <= step <= step + window && SameText(nfkc, code, Code(hmac, key, step));
  }

  /** A code generated at instant s is accepted at instant t whenever the
      two periods are at most `window` apart and the window does not reach
      below counter 0: with window 1, a code from the previous or the next
      period passes. */
  lemma VerifyAcceptsNearby(hmac: HmacSha1, nfkc: Nfkc, hexSeed: string, s: nat, t: nat, window: int)
    requires Hex.FromHex(hexSeed).Some?
    requires 0 <= window <= TimeStep(t)
    requires TimeStep(t) - window <= TimeStep(s) <= TimeStep(t) + window
    ensures VerifyTotpCode(hmac, nfkc, hexSeed, GenerateTotpCode(hmac, hexSeed, s).value, t, window) == Some(true)
  {
    var key := Hex.FromHex(hexSeed).value;
    var k: nat := TimeStep(s);
    assert SameText(nfkc, GenerateTotpCode(hmac, hexSeed, s).value, Code(hmac, key, k));
  }

  /** Widening the window by one step keeps every accepted code accepted,
      as long as the wider window still starts at counter 0 or above. */
  lemma VerifyWindowMonotone(hmac: HmacSha1, nfkc: Nfkc, hexSeed: string, candidate: string, t: nat, window: int)
    requires 0 <= window < TimeStep(t)
    ensures VerifyTotpCode(hmac, nfkc, hexSeed, candidate, t, window) == Some(true) ==>
              VerifyTotpCode(hmac, nfkc, hexSeed, candidate, t, window + 1) == Some(true)
  {
    if VerifyTotpCode(hmac, nfkc, hexSeed, candidate, t, window) == Some(true) {
      assert Hex.FromHex(hexSeed).Some?;
      var key := Hex.FromHex(hexSeed).value;
      AcceptsMonotone(hmac, nfkc, key, candidate, TimeStep(t), window);
    }
  }

  lemma AcceptsMonotone(hmac: HmacSha1, nfkc: Nfkc, key: seq<byte>, candidate: string, step: nat, window: int)
    ensures Accepts(hmac, nfkc, key, candidate, step, window) ==> Accepts(hmac, nfkc, key, candidate, step, window + 1)
  {
    if Accepts(hmac, nfkc, key, candidate, step, window) {
      var k: nat :| step - window <= k <= step + window && SameText(nfkc, candidate, Code(hmac, key, k));
      assert step - (window + 1) <= k <= step + (window + 1);
    }
  }

  /** A candidate that does not normalise to six decimal digits is never
      accepted. */
  lemma VerifyRejectsMalformed(hmac: HmacSha1, nfkc: Nfkc, hexSeed: string, candidate: string, t: nat, window: int)
    requires !IsCode(nfkc(candidate))
    ensures VerifyTotpCode(hmac, nfkc, hexSeed, candidate, t, window) != Some(true)
  {
  }
}
