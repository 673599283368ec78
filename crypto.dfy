/** Recovering the hex seed from the base64-encoded, RSA-OAEP-encrypted
    payload the service receives. */
module CryptoUtils {
  import opened Common
  import Base64
  import Hex
  import Text

  /** RSA-OAEP decryption (MGF1 over SHA-256, SHA-256, no label) under the
      loaded private key; None when the ciphertext does not decrypt. */
  type OaepDecrypt = seq<byte> -> Option<seq<byte>>

  /** `bytes.decode("utf-8")`; None for a malformed sequence. */
  type Utf8Decode = seq<byte> -> Option<string>

  const SeedLength: nat := 64
  const SeedAlphabet: string := "0123456789abcdef"

  /** The seed format decrypt_seed insists on: 64 lowercase hex digits.
      Such a seed has no whitespace at either end. */
  predicate IsValidSeed(s: string)
    ensures IsValidSeed(s) ==> Text.Trimmed(s)
  {
    |s| == SeedLength && forall i :: 0 <= i < |s| ==> s[i] in SeedAlphabet
  }

  /** Why decryption failed. Each corresponds to an exception the source
      lets propagate: `binascii.Error`, the decryption's `ValueError`,
      `UnicodeDecodeError`, and the `ValueError` naming the bad seed. */
  datatype DecryptError =
    | MalformedBase64
    | DecryptionFailed
    | NotUtf8
    | InvalidSeedFormat(seed: string)

  /** decrypt_seed: base64-decode, decrypt, decode as UTF-8, strip
      surrounding whitespace, then insist on the seed format. */
  function DecryptSeed(encryptedSeed: string, decrypt: OaepDecrypt, utf8: Utf8Decode): (r: Result<string, DecryptError>)
    ensures r == Err(MalformedBase64) <==> Base64.Decode(encryptedSeed).None?
    ensures r.Ok? ==> IsValidSeed(r.value) && Text.Trimmed(r.value)
    ensures r.Err? && r.error.InvalidSeedFormat? ==> !IsValidSeed(r.error.seed)
  {
    match Base64.Decode(encryptedSeed)
    case None => Err(MalformedBase64)
    case Some(ciphertext) =>
      match decrypt(ciphertext)
      case None => Err(DecryptionFailed)
      case Some(plaintext) =>
        match utf8(plaintext)
        case None => Err(NotUtf8)
        case Some(text) =>
          Text.StripTrimmed(text);
          var seed := Text.Strip(text);
          if |seed| != SeedLength || exists i :: 0 <= i < |seed| && seed[i] !in SeedAlphabet then
            Err(InvalidSeedFormat(seed))
          else
            Ok(seed)
  }

  /** Once the payload decodes, decrypts and is UTF-8, the outcome depends
      only on the stripped text: it is returned exactly when it has the
      seed format. */
  lemma DecryptSeedOfText(encryptedSeed: string, decrypt: OaepDecrypt, utf8: Utf8Decode,
                          ciphertext: seq<byte>, plaintext: seq<byte>, text: string)
    requires Base64.Decode(encryptedSeed) == Some(ciphertext)
    requires decrypt(ciphertext) == Some(plaintext)
    requires utf8(plaintext) == Some(text)
    ensures DecryptSeed(encryptedSeed, decrypt, utf8).Ok? <==> IsValidSeed(Text.Strip(text))
    ensures DecryptSeed(encryptedSeed, decrypt, utf8).Ok? ==> DecryptSeed(encryptedSeed, decrypt, utf8).value == Text.Strip(text)
    ensures DecryptSeed(encryptedSeed, decrypt, utf8).Err? ==> DecryptSeed(encryptedSeed, decrypt, utf8).error == InvalidSeedFormat(Text.Strip(text))
  {
  }

  /** A failure of the decryption or of the UTF-8 decoding is reported as
      such. */
  lemma DecryptSeedFailures(encryptedSeed: string, decrypt: OaepDecrypt, utf8: Utf8Decode, ciphertext: seq<byte>)
    requires Base64.Decode(encryptedSeed) == Some(ciphertext)
    ensures decrypt(ciphertext).None? ==> DecryptSeed(encryptedSeed, decrypt, utf8) == Err(DecryptionFailed)
    ensures decrypt(ciphertext).Some? && utf8(decrypt(ciphertext).value).None? ==>
              DecryptSeed(encryptedSeed, decrypt, utf8) == Err(NotUtf8)
  {
  }

  /** The seed format in terms of characters: exactly 64 characters, each
      a digit or one of `a` to `f`. */
  lemma IsValidSeedChars(s: string)
    ensures IsValidSeed(s) <==> |s| == SeedLength && forall i :: 0 <= i < |s| ==> Hex.IsLowerHexDigit(s[i])
  {
    assert SeedAlphabet == Hex.LowerHexDigits;
    forall i | 0 <= i < |s| {
      Hex.LowerHexDigitsAre(s[i]);
    }
  }

  /** A valid seed is the lowercase hex spelling of a 32-octet key, and
      stripping leaves it unchanged. */
  lemma ValidSeedIsKey(s: string)
    requires IsValidSeed(s)
    ensures Hex.FromHex(s).Some? && |Hex.FromHex(s).value| == 32
    ensures Hex.ToHex(Hex.FromHex(s).value) == s
    ensures Text.Strip(s) == s
  {
    IsValidSeedChars(s);
    Hex.ToHexFromHex(s);
    assert !Text.IsSpace(s[0]) && !Text.IsSpace(s[|s| - 1]);
    Text.StripFixedPoint(s);
  }

  /** Reading back a stored valid seed and stripping it gives a seed the
      hex decoding accepts. */
  lemma ValidSeedDecodes(s: string)
    requires IsValidSeed(s)
    ensures Hex.FromHex(Text.Strip(s)).Some?
  {
    ValidSeedIsKey(s);
  }

  /** Whitespace around the seed in the plaintext (a trailing newline,
      say) is tolerated and removed. */
  lemma SeedInWhitespace(encryptedSeed: string, decrypt: OaepDecrypt, utf8: Utf8Decode,
                         ciphertext: seq<byte>, plaintext: seq<byte>, before: string, seed: string, after: string)
    requires Base64.Decode(encryptedSeed) == Some(ciphertext)
    requires decrypt(ciphertext) == Some(plaintext)
    requires utf8(plaintext) == Some(before + seed + after)
    requires Text.AllSpace(before) && Text.AllSpace(after)
    requires IsValidSeed(seed)
    ensures DecryptSeed(encryptedSeed, decrypt, utf8) == Ok(seed)
  {
    ValidSeedIsKey(seed);
    Text.StripSurrounding(before, seed, after);
  }

  /** A character other than a digit or `a` to `f` anywhere in the
      stripped text refuses it: uppercase hex digits, which
      `bytes.fromhex` would read, are not lowered. */
  lemma NonLowerHexRejected(s: string, i: int)
    requires 0 <= i < |s| && !Hex.IsLowerHexDigit(s[i])
    ensures !IsValidSeed(s)
  {
    IsValidSeedChars(s);
  }

  /** The usual plaintext: 64 `a`s and a trailing newline yield the 64
      `a`s. */
  lemma NewlineTerminatedSeed(encryptedSeed: string, decrypt: OaepDecrypt, utf8: Utf8Decode,
                              ciphertext: seq<byte>, plaintext: seq<byte>)
    requires Base64.Decode(encryptedSeed) == Some(ciphertext)
    requires decrypt(ciphertext) == Some(plaintext)
    requires utf8(plaintext) == Some(seq(64, _ => 'a') + "\n")
    ensures DecryptSeed(encryptedSeed, decrypt, utf8) == Ok(seq(64, _ => 'a'))
  {
    var seed := seq(64, _ => 'a');
    assert "" + seed + "\n" == seed + "\n";
    assert Text.IsSpace('\n');
    assert 'a' in SeedAlphabet;
    SeedInWhitespace(encryptedSeed, decrypt, utf8, ciphertext, plaintext, "", seed, "\n");
  }
}
