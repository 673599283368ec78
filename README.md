# PKI TOTP microservice, modelled in Dafny

The service holds a 2FA secret and hands out one-time codes for it.

- **Provisioning.** A client sends the 64-hex-digit seed, RSA-OAEP encrypted (SHA-256, MGF1 over SHA-256, no label) and base64 encoded. `POST /decrypt-seed` decrypts it, checks it and stores it in the seed file.
- **Generating.** `GET /generate-2fa` turns the stored seed into a base32 TOTP secret. It answers with the current 6-digit code (RFC 6238: 30-second periods, HMAC-SHA-1) and the seconds left in the period.
- **Verifying.** `POST /verify-2fa` checks a submitted code with one period of tolerance on either side.
- **Health.** `GET /health` always answers `{"status": "ok"}`.

## Modules

- **`Common`:** octets (`byte`, an integer in 0..255), `Option`, `Result`, and two small lemmas about division.
- **`Hex`:** `bytes.fromhex` and `bytes.hex`.
  - `FromHex` accepts digits in either case.
  - It allows ASCII whitespace before each pair of digits.
  - Anything else is an error.
- **`Base32`:** RFC 4648 section 6.
  - `Encode` is `base64.b32encode`.
  - `Decode` is the strict decoder the TOTP library applies to the secret once it has padded the secret with `=` to a multiple of 8.
- **`Base64`:** RFC 4648 section 4.
  - `Encode` is the canonical encoder.
  - `Decode` is what `base64.b64decode` does by default (CPython's non-validating `a2b_base64`):
    - a text containing a non-ASCII character is refused;
    - characters outside the alphabet are skipped;
    - a `=` that completes a quad ends decoding;
    - a text that ends inside a quad is an error.
- **`Text`:** `str.strip()` with Python's `str.isspace` set of whitespace.
- **`Hotp`:** HOTP from RFC 4226.
  - The counter is encoded big-endian and left-padded to 8 octets.
  - The digest goes through the dynamic truncation of section 5.3.
  - The six digits are formatted as the library formats them, `str(10^10 + v % 10^6)[-6:]`.
  - HMAC-SHA-1 is a parameter, `HmacSha1`.
- **`TotpUtils`** (`app/totp_utils.py`):
  - `HexToBase32`, `GenerateTotpCode` (time step `t / 30`) and `VerifyTotpCode`.
  - `VerifyTotpCode` models the library's look-around. With window 0 it compares with the current code only. Otherwise it tries the counters from T − w up to T + w and stops at the first match. The code for a negative counter raises.
  - The library compares the candidate with each code after NFKC-normalising both. The normalisation is the parameter `Nfkc`, which leaves strings of ASCII digits unchanged. So a full-width "１２３４５６" may be accepted in place of "123456"; what is proved is that a candidate whose normal form is not six digits never is.
- **`CryptoUtils`** (`app/crypto_utils.py`):
  - `DecryptSeed` pipelines base64 decoding, RSA-OAEP under the loaded key, UTF-8 decoding, stripping and the check of the seed format.
  - RSA-OAEP (`OaepDecrypt`) and UTF-8 decoding (`Utf8Decode`) are partial functions given as parameters.
- **`Endpoints`** (`app/main.py`):
  - The class `Service` holds the seed file as `seedFile: Option<string>`.
  - `DecryptSeedEndpoint` is the only method that modifies it.
  - `Health`, `Generate2fa` and `Verify2fa` have no `modifies` clause, so by their frames they leave the stored seed unchanged.
  - Each endpoint returns a `Response` with a status and a JSON body.
  - `Valid()` says the file holds a well-formed seed. It is established by the constructor and preserved by `DecryptSeedEndpoint`.

Clock readings are parameters:
- `codeTime` and `t` are the instants the TOTP library reads;
- `now` is the later reading `generate_2fa` computes `valid_for` from.

The two readings of `generate_2fa` may straddle a period boundary: the code at `codeTime` = 29 s belongs to period 0, while `now` = 30 s announces `valid_for` = 30 for period 1. The handler then hands out a code that is already superseded for the whole span it announces. The model reproduces this: `Endpoints.CodeLastsValidFor` covers readings in the same period, and `Endpoints.StraddledReadings` states the straddling case.

Where the code and its comments disagree, the model follows the code:
- The comment at `app/main.py:113` says the remaining seconds are "0–29". The code computes 30 − (now mod 30), which lies in 1..30. `Endpoints.ValidFor` states the latter.
- The docstring of `verify_totp_code` promises "±30s". The look-around raises whenever the window reaches below counter 0. So during the first 30 seconds of the epoch, `verify-2fa` answers 500 "Verification failed".

## Model

| member | source | states |
|---|---|---|
| Hex.FromHexToHex | app/totp_utils.py:11 | `bytes.fromhex` reads back the lowercase hex spelling of any octets as exactly those octets |
| Hex.FromHex | app/totp_utils.py:11 | an accepted text consists only of hex digits (either case) and ASCII whitespace, and holds at least two characters per octet it yields |
| Hex.ToHexFromHex | app/totp_utils.py:11 | an even-length string of lowercase hex digits decodes to half as many octets, whose lowercase spelling is the string again |
| Hex.ToHex | app/totp_utils.py:11 | the lowercase spelling has two lowercase hex digits per octet |
| Base32.DecodeEncode | app/totp_utils.py:13-14 | decoding the output of `b32encode` gives back exactly the octets encoded |
| Base32.EncodeLength | app/totp_utils.py:13-14 | n octets encode to 8·ceil(n/5) characters |
| Base32.EncodeLengthMultiple | app/totp_utils.py:13-14 | the encoding's length is a multiple of 8 |
| Base32.EncodeLayout | app/totp_utils.py:13-14 | the encoding of n octets is ceil(8n/5) alphabet symbols followed only by `=` |
| Base32.QuantumRoundTrip | app/totp_utils.py:13-14 | splitting five octets into eight 5-bit groups and joining them again is the identity |
| Base32.SymbolCount | app/totp_utils.py:13-14 | the number of data symbols for n octets is ceil(8n/5) |
| Base32.OctetCount | app/totp_utils.py:30-38 | for each pad count a final quantum may end in (0, 1, 3, 4, 6), the octets it carries, 1 to 5, are exactly those whose symbols fill the rest of the quantum |
| Base32.Encode | app/totp_utils.py:13-14 | the encoding's length is a multiple of 8, and it is empty exactly for no octets |
| Base32.Decode | app/totp_utils.py:30-38 | a text that decodes has a length that is a multiple of 8 and yields at most 5 octets per 8 characters |
| Base32.DecodeFinal | app/totp_utils.py:30-38 | a final quantum that decodes yields 1 to 5 octets |
| Base64.DecodeEncode | app/crypto_utils.py:50 | `b64decode` of the canonical encoding of any octets gives back exactly those octets |
| Base64.DecodeLoopSkips | app/crypto_utils.py:50 | a character that is neither an alphabet symbol nor `=` is skipped wherever it stands in the decoding loop: inserting it never changes what the loop yields |
| Base64.DecodeSkips | app/crypto_utils.py:50 | an ASCII character that is neither an alphabet symbol nor `=` is skipped wherever it stands: inserting it never changes what `b64decode` returns |
| Base64.DecodeLoop | app/crypto_utils.py:50 | the octets already emitted are a prefix of the result, and the loop emits at most three octets per four characters it reads |
| Base64.Decode | app/crypto_utils.py:50 | only an ASCII text decodes, and it yields at most three octets per four characters |
| Base64.EncodeIsAscii | app/crypto_utils.py:50 | the canonical encoding is ASCII, so the decoder's ASCII check never refuses it |
| Text.StripSpec | app/crypto_utils.py:63 | what strip returns is an infix of the input, neither end of it is whitespace, and only whitespace stands before and after it |
| Text.Strip | app/crypto_utils.py:63 | strip never lengthens a string, and yields the empty string exactly when the string is all whitespace; its full characterisation is `Text.StripSpec` |
| Text.LeadingSpaces | app/crypto_utils.py:63 | the count covers exactly the whitespace the string starts with: every counted character is whitespace and the next one is not |
| Text.TrailingSpaces | app/crypto_utils.py:63 | the count covers exactly the whitespace the string ends with: every counted character is whitespace and the one before them is not |
| Text.StripFixedPoint | app/crypto_utils.py:63 | a string whose ends are not whitespace is unchanged by strip |
| Text.StripIdempotent | app/crypto_utils.py:63 | stripping twice is stripping once |
| Text.StripSurrounding | app/crypto_utils.py:63 | whitespace on either side of a trimmed string is exactly what strip removes |
| Hotp.CounterBytes | app/totp_utils.py:41 | the counter's octet string has the counter as its big-endian value and is 8 octets long for every counter below 2^64 |
| Hotp.Truncate | app/totp_utils.py:33-38 | dynamic truncation yields the 31-bit big-endian value of the four octets at the offset named by the low nibble of the last octet |
| Hotp.FormatCode | app/totp_utils.py:36 | the library's string trick yields the value modulo 10^6, zero-padded to exactly six digits |
| Hotp.ZeroPadded | app/totp_utils.py:36 | the padded form has the requested width, consists of decimal digits, and spells the number modulo 10^width |
| Hotp.ZeroPaddedModulus | app/totp_utils.py:36 | numbers congruent modulo 10^width have the same padded form |
| Hotp.DecimalValue | app/totp_utils.py:36 | a string of n decimal digits spells a number below 10^n |
| Hotp.Code | app/totp_utils.py:33-41 | a code is six decimal digits spelling the truncated HMAC of the counter modulo 10^6 |
| TotpUtils.HexToBase32 | app/totp_utils.py:5-16 | the secret exists exactly when the seed is hex; its base32 decoding is the seed's octets; its length is a multiple of 8 |
| TotpUtils.TimeStep | app/totp_utils.py:35 | the time step names the 30-second period t lies in: 30·T ≤ t < 30·T + 30 |
| TotpUtils.PadSecret | app/totp_utils.py:30-38 | the padded secret is the secret followed only by `=`, its length the least multiple of 8 not below the secret's |
| TotpUtils.ByteSecret | app/totp_utils.py:30-38 | a secret whose length is a multiple of 8 is base32-decoded as it stands |
| TotpUtils.KeyOfHexSeed | app/totp_utils.py:30-38 | the key the TOTP library derives from the secret is exactly the octets of the hex seed |
| TotpUtils.SeedOctets | app/totp_utils.py:11 | a 64-character lowercase hex seed is 32 octets whose lowercase spelling is the seed |
| TotpUtils.SeedSecretShape | app/totp_utils.py:13-14 | the secret of a 64-digit seed is 56 characters: 52 base32 symbols, then exactly four `=` |
| TotpUtils.GenerateTotpCode | app/totp_utils.py:19-41 | a code exists exactly when the seed is hex; it is six digits; it is the HOTP of the seed's octets at counter floor(t/30) |
| TotpUtils.CodeOfPeriod | app/totp_utils.py:35-41 | every instant from 30k to 30k+29 yields the code of counter k |
| TotpUtils.SamePeriodSameCode | app/totp_utils.py:35-41 | two instants in the same 30-second period yield the same result |
| TotpUtils.Accepts | app/totp_utils.py:66-67 | only a candidate whose NFKC normal form is six digits can be accepted, and a negative window accepts nothing |
| TotpUtils.ScanWindow | app/totp_utils.py:66-67 | the look-around over counters lo..hi raises when it starts below 0; otherwise it says whether some counter in range yields a code equal to the candidate once both are NFKC-normalised; an empty range says no |
| TotpUtils.ScanAccepts | app/totp_utils.py:66-67 | the look-around over [T−w, T+w] raises exactly when a positive window reaches below counter 0, and otherwise answers whether the candidate is accepted |
| TotpUtils.VerifyTotpCode | app/totp_utils.py:44-67 | for a hex seed whose window stays at counters 0 and above, the answer is whether the candidate, NFKC-normalised, equals the code at some counter in [T−w, T+w]; a non-hex seed, or a positive window reaching below counter 0, raises |
| TotpUtils.VerifyAcceptsGenerated | app/totp_utils.py:51-54 | a code generated at t is accepted at t for every window 0 ≤ w ≤ T |
| TotpUtils.VerifyAcceptsNearby | app/totp_utils.py:51 | for a window 0 ≤ w ≤ T, a code generated at s is accepted at t whenever the periods of s and t are at most w apart |
| TotpUtils.VerifyWindowMonotone | app/totp_utils.py:51-67 | for a window 0 ≤ w < T, a code accepted with window w is accepted with window w + 1; at w = T the wider window reaches counter −1 and raises |
| TotpUtils.VerifyRejectsMalformed | app/totp_utils.py:44-67 | a candidate whose NFKC normal form is not six decimal digits is never accepted |
| CryptoUtils.DecryptSeed | app/crypto_utils.py:25-70 | it fails with the base64 error exactly when base64 decoding fails; a returned seed is 64 lowercase hex digits with no surrounding whitespace; a format error names a seed that is not valid |
| CryptoUtils.DecryptSeedOfText | app/crypto_utils.py:63-70 | once the payload decodes, decrypts and is UTF-8, the result is Ok exactly when the stripped text is a valid seed, and then it is that stripped text, unchanged; otherwise the error names the stripped text |
| CryptoUtils.DecryptSeedFailures | app/crypto_utils.py:53-63 | a failing decryption or UTF-8 decoding propagates as its own error, and no seed is returned |
| CryptoUtils.IsValidSeedChars | app/crypto_utils.py:66 | the seed check holds exactly for 64 characters, each a digit or a to f |
| CryptoUtils.IsValidSeed | app/crypto_utils.py:66 | a seed in the required format has no whitespace at either end |
| CryptoUtils.NonLowerHexRejected | app/crypto_utils.py:66-67 | any character outside 0-9 and a-f, uppercase hex included, makes the seed invalid; there is no normalisation |
| CryptoUtils.ValidSeedIsKey | app/crypto_utils.py:66-70 | a valid seed spells a 32-octet key whose lowercase spelling is the seed, and is a fixed point of strip |
| CryptoUtils.ValidSeedDecodes | app/main.py:108-111 | reading back and stripping a stored valid seed gives a seed the hex decoding accepts |
| CryptoUtils.SeedInWhitespace | app/crypto_utils.py:63-70 | a valid seed surrounded by whitespace in the plaintext is returned without the whitespace |
| CryptoUtils.NewlineTerminatedSeed | app/crypto_utils.py:63 | the plaintext of 64 `a` characters followed by a newline yields the 64 `a` characters |
| Endpoints.ValidFor | app/main.py:114-115 | `valid_for` lies in 1..30 for every clock reading, and now + valid_for is the start of the next period |
| Endpoints.ValidForSpansPeriod | app/main.py:113-115 | the valid_for seconds starting now are in the current period, and the next second is in the next period |
| Endpoints.CodeLastsValidFor | app/main.py:111-117 | when the code reading and the later `valid_for` reading fall in the same period, the code handed out stays the current code for every one of the valid_for seconds announced with it |
| Endpoints.StraddledReadings | app/main.py:111-117 | when the code reading and the `valid_for` reading straddle a period boundary, every second of the announced span lies in a later period than the code handed out, and its current code is the one of the later period |
| Endpoints.Service.constructor | app/main.py:18-20 | a fresh deployment has no seed file |
| Endpoints.Service.Valid | app/main.py:108 | a store the service wrote holds a seed with no whitespace at either end |
| Endpoints.Service.StoredSeed | app/main.py:108 | the seed read back has no whitespace at either end, and a seed the service wrote itself comes back unchanged |
| Endpoints.Service.Health | app/main.py:41-43 | the health check always answers 200 `{"status": "ok"}` |
| Endpoints.Service.DecryptSeedEndpoint | app/main.py:50-82 | when the key loads and decryption succeeds, the seed file becomes the decrypted seed and the answer is 200 `{"status": "ok"}`; otherwise the answer is 500 "Decryption failed" and the seed file is unchanged; a valid store stays valid |
| Endpoints.Service.Generate2fa | app/main.py:89-123 | no seed file gives 500 "Seed not decrypted yet"; a stored seed that is not hex after stripping gives 500 "Failed to generate 2FA code"; otherwise 200 with the six-digit code for floor(codeTime/30) and valid_for; a valid store always gives 200 |
| Endpoints.Service.Verify2fa | app/main.py:130-173 | a missing code gives 400 "Missing code" before the seed is looked at; no seed file gives 500 "Seed not decrypted yet"; a non-hex stored seed or a time before the first full period gives 500 "Verification failed"; otherwise 200 with whether the code matches a counter within one period of now; a code whose NFKC normal form is not six digits is never valid |
| Endpoints.ProvisionGenerateVerify | app/main.py:50-173 | against a fresh deployment, provisioning succeeds exactly when decryption does; the code then fetched is accepted by the verify endpoint at any instant at most one period away (after the first period) |

## Left out

- Reading and parsing the PEM private key (`load_student_private_key`, `app/crypto_utils.py:12-22`) are file I/O and a foreign parser. `DecryptSeedEndpoint` receives the key as `Option<OaepDecrypt>`, with None when loading fails.
- RSA-OAEP decryption is not modelled. It is the parameter `OaepDecrypt`, a partial function.
- HMAC-SHA-1 is not modelled. It is the parameter `HmacSha1`, which returns 20 octets.
- UTF-8 decoding is the parameter `Utf8Decode`, a partial function. The service fixes it at construction.
- The TOTP library's source is not part of this model. The counter encoding, truncation, formatting, secret decoding and look-around follow RFC 4226, RFC 6238 and the library's documented behaviour.
- TotpUtils.VerifyTotpCode: the library compares the normalised strings in constant time; timing cannot be stated here. NFKC normalisation itself is the parameter `Nfkc`, of which the model knows only that it leaves strings of ASCII digits unchanged.
- Base32.Decode: does not fold lowercase letters to uppercase, as the library's `casefold=True` would. The secret always comes from `b32encode`, which emits uppercase only.
- Endpoints.Service.DecryptSeedEndpoint: a failing `mkdir` or `write_text` is not modelled. Neither is a partially written file, or the concurrency between requests. The seed file is one `Option<string>`, replaced at once.
- Endpoints.Service.Generate2fa: a seed file that exists but cannot be read or decoded as text is not modelled. The same holds for `Verify2fa`. The file's contents are taken to be a string.
- The wall clock is not modelled. `time.time()` and the library's own clock readings are parameters.
- The FastAPI and pydantic layers, JSON serialisation and request validation are left out. The request bodies arrive as already-parsed values: a `string`, and an `Option<string>` for the code.
- Rejection of a code from a step outside the window is not stated. Codes have only six digits, so another step's code may coincide with one inside the window. The model proves acceptance inside the window and the rejection of codes whose normal form is malformed.
- The scripts (`scripts/request_seed.py`, `scripts/log_2fa_cron.py`, `scripts/test_totp.py`, `scripts/test_decrypt_seed.py`) are network clients and manual drivers around the functions above. They are not part of this model.
