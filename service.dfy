/** The HTTP service: its four endpoints over the one piece of state it
    keeps, the seed file. */
module Endpoints {
  import opened Common
  import Hex
  import Text
  import Hotp
  import CryptoUtils
  import TotpUtils

  /** The JSON bodies the endpoints answer with. */
  datatype Body =
    | StatusOk                             // {"status": "ok"}
    | CodeBody(code: string, validFor: int) // {"code": ..., "valid_for": ...}
    | ValidBody(valid: bool)               // {"valid": ...}
    | ErrorBody(error: string)             // {"error": ...}

  datatype Response = Response(statusCode: int, body: Body)

  const HttpOk: int := 200
  const HttpBadRequest: int := 400
  const HttpServerError: int := 500

  /** The tolerance verify_2fa passes on: one period either side. */
  const ValidWindow: int := 1

  /** Seconds left in the current 30-second period, counting the current
      second. */
  function ValidFor(now: int): (v: int)
    ensures 1 <= v <= TotpUtils.Interval
    ensures (now + v) % TotpUtils.Interval == 0
  {
    TotpUtils.Interval - now % TotpUtils.Interval
  }

  /** For `valid_for` seconds from now the period does not change; the
      second after them starts the next one. */
  lemma ValidForSpansPeriod(now: int, d: int)
    requires 0 <= d < ValidFor(now)
    ensures (now + d) / TotpUtils.Interval == now / TotpUtils.Interval
    ensures (now + ValidFor(now)) / TotpUtils.Interval == now / TotpUtils.Interval + 1
  {
    var q, r := now / TotpUtils.Interval, now % TotpUtils.Interval;
    DivModUnique(now + d, TotpUtils.Interval, q, r + d);
    DivModUnique(now + ValidFor(now), TotpUtils.Interval, q + 1, 0);
  }

  /** The generate endpoint makes the code from one clock reading,
      `codeTime`, and `valid_for` from a later one, `now`. When both fall
      in the same period, the code handed out is the current code for every
      one of the `valid_for` seconds announced with it. */
  lemma CodeLastsValidFor(hmac: Hotp.HmacSha1, hexSeed: string, codeTime: nat, now: nat, d: nat)
    requires TotpUtils.TimeStep(codeTime) == TotpUtils.TimeStep(now)
    requires d < ValidFor(now)
    ensures TotpUtils.GenerateTotpCode(hmac, hexSeed, now + d) == TotpUtils.GenerateTotpCode(hmac, hexSeed, codeTime)
  {
    ValidForSpansPeriod(now, d);
    TotpUtils.SamePeriodSameCode(hmac, hexSeed, now + d, codeTime);
  }

  /** When the two readings straddle a period boundary, the code handed out
      belongs to an earlier period than every second of the `valid_for`
      span announced with it: through that whole span the current code is
      the one of `now`'s period. */
  lemma StraddledReadings(hmac: Hotp.HmacSha1, hexSeed: string, codeTime: nat, now: nat, d: nat)
    requires Hex.FromHex(hexSeed).Some?
    requires TotpUtils.TimeStep(codeTime) < TotpUtils.TimeStep(now)
    requires d < ValidFor(now)
    ensures TotpUtils.TimeStep(codeTime) < TotpUtils.TimeStep(now + d)
    ensures TotpUtils.GenerateTotpCode(hmac, hexSeed, now + d)
              == Some(Hotp.Code(hmac, Hex.FromHex(hexSeed).value, TotpUtils.TimeStep(now)))
  {
    ValidForSpansPeriod(now, d);
  }

  class Service {
    /** The contents of the seed file; None while it does not exist. */
    var seedFile: Option<string>
    /** HMAC-SHA1, the one primitive code generation needs. */
    const hmac: Hotp.HmacSha1
    /** UTF-8 decoding of the decrypted payload. */
    const utf8: CryptoUtils.Utf8Decode
    /** The NFKC normalisation the TOTP library compares codes under. */
    const nfkc: TotpUtils.Nfkc

    /** A fresh deployment: no seed file yet. */
    constructor (hmac: Hotp.HmacSha1, utf8: CryptoUtils.Utf8Decode, nfkc: TotpUtils.Nfkc)
      ensures seedFile == None
      ensures this.hmac == hmac && this.utf8 == utf8 && this.nfkc == nfkc
      ensures Valid()
    {
      this.hmac := hmac;
      this.utf8 := utf8;
      this.nfkc := nfkc;
      seedFile := None;
    }

    /** What the service itself ever writes to the seed file: a seed in the
        required format, which has no whitespace at either end. */
    predicate Valid()
      reads this
      ensures Valid() && seedFile.Some? ==> Text.Trimmed(seedFile.value)
    {
      seedFile.Some? ==> CryptoUtils.IsValidSeed(seedFile.value)
    }

    /** The seed the other endpoints work with: the file's contents with
        surrounding whitespace removed. What the service wrote itself comes
        back unchanged. */
    function StoredSeed(): (seed: string)
      reads this
      requires seedFile.Some?
      ensures Text.Trimmed(seed)
      ensures Valid() ==> seed == seedFile.value
    {
      var contents := seedFile.value;
      Text.StripTrimmed(contents);
      assert Valid() ==> Text.Strip(contents) == contents by {
        if Valid() {
          Text.StripFixedPoint(contents);
        }
      }
      Text.Strip(contents)
    }

    /** GET /health. */
    method Health() returns (r: Response)
      ensures r == Response(HttpOk, StatusOk)
    {
      r := Response(HttpOk, StatusOk);
    }

    /** POST /decrypt-seed. The private key is None when it cannot be
        loaded. The decrypted seed replaces the seed file; any failure
        answers 500 and leaves the file as it was. */
    method DecryptSeedEndpoint(encryptedSeed: string, privateKey: Option<CryptoUtils.OaepDecrypt>) returns (r: Response)
      modifies this
      ensures privateKey.Some? && CryptoUtils.DecryptSeed(encryptedSeed, privateKey.value, utf8).Ok? ==>
                r == Response(HttpOk, StatusOk)
                && seedFile == Some(CryptoUtils.DecryptSeed(encryptedSeed, privateKey.value, utf8).value)
      ensures !(privateKey.Some? && CryptoUtils.DecryptSeed(encryptedSeed, privateKey.value, utf8).Ok?) ==>
                r == Response(HttpServerError, ErrorBody("Decryption failed"))
                && seedFile == old(seedFile)
      ensures old(Valid()) ==> Valid()
      ensures r.statusCode == HttpOk ==> Valid() && seedFile.Some?
    {
      if privateKey.None? {
        return Response(HttpServerError, ErrorBody("Decryption failed"));
      }
      var result := CryptoUtils.DecryptSeed(encryptedSeed, privateKey.value, utf8);
      if result.Err? {
        return Response(HttpServerError, ErrorBody("Decryption failed"));
      }
      seedFile := Some(result.value);
      r := Response(HttpOk, StatusOk);
    }

    /** GET /generate-2fa. `codeTime` is the clock reading the code is made
        from and `now` the later one `valid_for` is computed from. */
    method Generate2fa(codeTime: nat, now: int) returns (r: Response)
      ensures seedFile.None? ==> r == Response(HttpServerError, ErrorBody("Seed not decrypted yet"))
      ensures seedFile.Some? && Hex.FromHex(StoredSeed()).None? ==>
                r == Response(HttpServerError, ErrorBody("Failed to generate 2FA code"))
      ensures seedFile.Some? && Hex.FromHex(StoredSeed()).Some? ==>
                r.statusCode == HttpOk && r.body.CodeBody?
                && Hotp.IsCode(r.body.code)
                && r.body.code == Hotp.Code(hmac, Hex.FromHex(StoredSeed()).value, TotpUtils.TimeStep(codeTime))
                && 1 <= r.body.validFor <= TotpUtils.Interval
                && r.body.validFor == ValidFor(now)
      ensures Valid() && seedFile.Some? ==> r.statusCode == HttpOk
    {
      if seedFile.None? {
        return Response(HttpServerError, ErrorBody("Seed not decrypted yet"));
      }
      var hexSeed := StoredSeed();
      if Valid() {
        CryptoUtils.ValidSeedDecodes(seedFile.value);
      }
      var code := TotpUtils.GenerateTotpCode(hmac, hexSeed, codeTime);
      if code.None? {
        return Response(HttpServerError, ErrorBody("Failed to generate 2FA code"));
      }
      var validFor := ValidFor(now);
      r := Response(HttpOk, CodeBody(code.value, validFor));
    }

    /** POST /verify-2fa at instant t. A missing code is refused before the
        seed file is looked at. */
    method Verify2fa(code: Option<string>, t: nat) returns (r: Response)
      ensures code.None? ==> r == Response(HttpBadRequest, ErrorBody("Missing code"))
      ensures code.Some? && seedFile.None? ==> r == Response(HttpServerError, ErrorBody("Seed not decrypted yet"))
      ensures code.Some? && seedFile.Some? && Hex.FromHex(StoredSeed()).None? ==>
                r == Response(HttpServerError, ErrorBody("Verification failed"))
      ensures code.Some? && seedFile.Some? && Hex.FromHex(StoredSeed()).Some? ==>
                if TotpUtils.TimeStep(t) < ValidWindow then
                  r == Response(HttpServerError, ErrorBody("Verification failed"))
                else
                  r.statusCode == HttpOk && r.body.ValidBody?
                  && (r.body.valid <==> TotpUtils.Accepts(hmac, nfkc, Hex.FromHex(StoredSeed()).value, code.value,
                                                           TotpUtils.TimeStep(t), ValidWindow))
      ensures code.Some? && !Hotp.IsCode(nfkc(code.value)) ==> r != Response(HttpOk, ValidBody(true))
    {
      if code.None? {
        return Response(HttpBadRequest, ErrorBody("Missing code"));
      }
      if seedFile.None? {
        return Response(HttpServerError, ErrorBody("Seed not decrypted yet"));
      }
      var hexSeed := StoredSeed();
      var valid := TotpUtils.VerifyTotpCode(hmac, nfkc, hexSeed, code.value, t, ValidWindow);
      if valid.None? {
        return Response(HttpServerError, ErrorBody("Verification failed"));
      }
      r := Response(HttpOk, ValidBody(valid.value));
    }
  }

  /** A client's session against a fresh deployment: provision the seed,
      fetch a code at instant `s`, and submit it at instant `t`. When the
      payload carries a valid seed, the code is accepted whenever the two
      instants are at most one period apart (and t is past the first
      period, below which the look-around would reach counter -1). */
  method ProvisionGenerateVerify(hmac: Hotp.HmacSha1, utf8: CryptoUtils.Utf8Decode, nfkc: TotpUtils.Nfkc,
                                 encryptedSeed: string, privateKey: CryptoUtils.OaepDecrypt,
                                 s: nat, now: int, t: nat)
    returns (provisioned: Response, generated: Response, verified: Response)
    ensures CryptoUtils.DecryptSeed(encryptedSeed, privateKey, utf8).Ok? ==>
              provisioned == Response(HttpOk, StatusOk) && generated.statusCode == HttpOk
    ensures CryptoUtils.DecryptSeed(encryptedSeed, privateKey, utf8).Err? ==>
              provisioned == Response(HttpServerError, ErrorBody("Decryption failed"))
              && generated == Response(HttpServerError, ErrorBody("Seed not decrypted yet"))
    ensures CryptoUtils.DecryptSeed(encryptedSeed, privateKey, utf8).Ok?
            && TotpUtils.TimeStep(t) >= ValidWindow
            && TotpUtils.TimeStep(t) - ValidWindow <= TotpUtils.TimeStep(s) <= TotpUtils.TimeStep(t) + ValidWindow ==>
              verified == Response(HttpOk, ValidBody(true))
  {
    var service := new Service(hmac, utf8, nfkc);
    provisioned := service.DecryptSeedEndpoint(encryptedSeed, Some(privateKey));
    generated := service.Generate2fa(s, now);
    var submitted := if generated.body.CodeBody? then generated.body.code else "";
    verified := service.Verify2fa(Some(submitted), t);
    if CryptoUtils.DecryptSeed(encryptedSeed, privateKey, utf8).Ok? {
      var seed := service.seedFile.value;
      CryptoUtils.ValidSeedIsKey(seed);
      if TotpUtils.TimeStep(t) >= ValidWindow
         && TotpUtils.TimeStep(t) - ValidWindow <= TotpUtils.TimeStep(s) <= TotpUtils.TimeStep(t) + ValidWindow {
        TotpUtils.VerifyAcceptsNearby(hmac, nfkc, seed, s, t, ValidWindow);
      }
    }
  }
}
