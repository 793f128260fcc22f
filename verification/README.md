# PublicKeyUtils key classes in Dafny

PublicKeyUtils wraps two kinds of JSON Web Key (JWK) public key.

- `SignVerifyPublicKey` is an EC key. Its `Verify` checks an ECDSA signature.
- `EncryptDecryptPublicKey` is an RSA key. Its `Encrypt` encrypts with RSA-OAEP.

Both classes decode base64url fields (`x`, `y`, `n`, `e`). Both check a little
JWK metadata (`key_ops`, `kty`, `alg`, `crv`, the hash name). Then they hand
the work to the platform's cryptography library.

This project models the logic the classes themselves contain:

- the two base64url→base64 normalisers, `Base64UrlToBase64` and `ToBase64Standard`;
- the name tables: hash names, curve names, and `alg` to OAEP padding;
- the order of checks in `Verify` and `Encrypt`, and which outcome each check produces;
- base64 encoding and decoding by section 4 of RFC 4648, for `Convert.ToBase64String` and `Convert.FromBase64String`.

The platform's RSA and ECDSA (key import, OAEP encryption, signature check)
are oracles. They are function values inside `Crypto.RsaProvider` and
`Crypto.EcdsaProvider`, passed in as arguments. Nothing is assumed about what
they compute, so every property proved holds whatever the platform does.
An oracle stands for the outcome of one call: OAEP encryption is randomised,
so two calls with the same inputs may differ, and each call of `Encrypt` is
given the `rsa` whose answer it gets.
Messages and plaintexts are already byte strings.

Files, one module each:

- `dotnet.dfy` (`DotNet`): `byte`, nullable references (`Option`), the
  exceptions (`Result`), and the `String`/`Dictionary` methods the classes call.
- `base64.dfy` (`Base64`): the section 4 alphabet, the encoder and the strict
  decoder, their round trip, and the section 5 URL-safe character map.
- `crypto.dfy` (`Crypto`): hash, curve and padding names, and the oracle records.
- `sign_verify.dfy` (`SignVerify`): the EC key, its tables, `Base64UrlToBase64`, `Verify`.
- `encrypt_decrypt.dfy` (`EncryptDecrypt`): the RSA key, `ToBase64Standard`,
  `Modulus`, `Exponent`, the padding mapping, `IsEncryptionAllowed`, `Encrypt`.
- `normalisers.dfy` (`Normalisers`): the two normalisers compared. It also has
  the base64url encoding the test suites use and the round trips through it.

## Behaviour worth knowing

- `Verify` can throw. It converts the signature and the point outside any
  `try`. So a malformed signature, `x` or `y` escapes as a `FormatException`,
  and a rejected key escapes as a `CryptographicException`. `SignVerify.Verify`
  states exactly when it throws.
- A null `key_ops` makes `Encrypt` throw. `IsEncryptionAllowed` calls
  `Contains` on the `string[]` with no null check. That call is
  `Enumerable.Contains`, which throws `ArgumentNullException` on a null
  source. `EncryptDecrypt.IsEncryptionAllowed` and `EncryptDecrypt.Encrypt`
  state this.
- The two classes normalise base64url differently. For a length of 1 modulo 4,
  `Base64UrlToBase64` throws and `ToBase64Standard` appends `===`.
  `Normalisers.NormalisersAgree` pins down the difference. After decoding,
  both give a `FormatException` (`EncryptDecrypt.TriplePaddingRejected`).
- `Encrypt` decodes `n` and `e` and imports them before it reads `alg`. It
  reads the padding only as an argument of the final `rsa.Encrypt` call. So a
  malformed `n` or `e` wins over an unsupported `alg`
  (`EncryptDecrypt.DecodeFailurePrecedesAlgorithm`).

## Model

| member | source | states |
|---|---|---|
| DotNet.Replace | PublicKeyUtils/CryptoKeys/SignVerifyPublicKey.cs:97 | `String.Replace(char, char)` keeps the length, replaces every `oldChar` and keeps every other character in place |
| DotNet.PadRight | PublicKeyUtils/CryptoKeys/EncryptDecryptPublicKey.cs:29 | `PadRight` keeps the string as a prefix and fills with the pad character up to the requested width, never shortening |
| DotNet.TryGetValue | PublicKeyUtils/CryptoKeys/SignVerifyPublicKey.cs:56 | `Dictionary.TryGetValue` finds a value exactly when the key is present, and then it is the value stored under that key |
| DotNet.TrimEnd | PublicKeyUtils.Tests/CryptoKeys/SignVerifyPublicKeyTests.cs:26-27 | `TrimEnd('=')` yields a prefix that does not end in `=`, and everything cut off was `=` |
| Base64.ToBase64String | PublicKeyUtils.Tests/CryptoKeys/SignVerifyPublicKeyTests.cs:30 | the standard encoding has length 4·⌈n/3⌉; all characters are in the alphabet except the closing `==` / `=` / nothing, chosen by n mod 3 |
| Base64.EncodeFoobar | PublicKeyUtils.Tests/CryptoKeys/SignVerifyPublicKeyTests.cs:26-30 | the encoder writes exactly `Zm9vYmFy` for "foobar", the test vector of section 10 of RFC 4648 |
| Base64.EncodeFooba | PublicKeyUtils.Tests/CryptoKeys/SignVerifyPublicKeyTests.cs:26-30 | the encoder writes exactly `Zm9vYmE=` for "fooba": one `=`, leftover bits zero |
| Base64.EncodeFoob | PublicKeyUtils.Tests/CryptoKeys/SignVerifyPublicKeyTests.cs:26-30 | the encoder writes exactly `Zm9vYg==` for "foob": two `=`, leftover bits zero |
| Base64.FromBase64String | PublicKeyUtils/CryptoKeys/SignVerifyPublicKey.cs:71 | strict decoding throws `FormatException` unless the length is a multiple of 4; on success `=` occurs only in the last two places and 3 bytes come from each group less at most 2 |
| Base64.DecodeEncode | PublicKeyUtils.Tests/CryptoKeys/SignVerifyPublicKeyTests.cs:30 | decoding what `ToBase64String` wrote gives back exactly the original bytes, for every byte string |
| Base64.DecodeOkIffWellPadded | PublicKeyUtils/CryptoKeys/SignVerifyPublicKey.cs:71 | strict decoding succeeds if and only if the string is whole groups of alphabet characters closed by at most two `=`; a non-alphabet character, a misplaced `=` or a bad length is a `FormatException` |
| Base64.DecodeOkIffTrailingPad | PublicKeyUtils/CryptoKeys/SignVerifyPublicKey.cs:71 | the same, with the padding read off the string's own closing `=` |
| Base64.JoinSplit | PublicKeyUtils/CryptoKeys/SignVerifyPublicKey.cs:71 | the three bytes of a group are recovered from its four 6-bit values, most significant first |
| SignVerify.HashAlgorithmByName | PublicKeyUtils/CryptoKeys/SignVerifyPublicKey.cs:41-47 | a hash name is found exactly when it is one of `SHA-1`, `SHA-256`, `SHA-384`, `SHA-512` (case-sensitive), and then it is found as the hash it names |
| SignVerify.CurveByName | PublicKeyUtils/CryptoKeys/SignVerifyPublicKey.cs:48-53 | a `crv` is found exactly when it is `P-256`, `P-384` or `P-521`, and then it is found as the curve it names |
| SignVerify.HashNameRoundTrip | PublicKeyUtils/CryptoKeys/SignVerifyPublicKey.cs:41-47 | every supported hash is found under its JOSE name |
| SignVerify.CurveNameRoundTrip | PublicKeyUtils/CryptoKeys/SignVerifyPublicKey.cs:48-53 | every supported curve is found under its JWK name |
| SignVerify.Base64UrlToBase64 | PublicKeyUtils/CryptoKeys/SignVerifyPublicKey.cs:95-106 | throws `FormatException` if and only if the length is 1 mod 4; otherwise maps `-`→`+`, `_`→`/` and keeps every other character at its position, then appends `==` for 2, `=` for 3, nothing for 0, so the length is a multiple of 4 |
| SignVerify.DecodeCoordinate | PublicKeyUtils/CryptoKeys/SignVerifyPublicKey.cs:73-83 | a point coordinate is normalised and then decoded; only `FormatException` escapes, always at length 1 mod 4, and a coordinate that decodes holds only URL-safe or standard alphabet characters and `=` |
| SignVerify.Verify | PublicKeyUtils/CryptoKeys/SignVerifyPublicKey.cs:29-92 | answers `false` whenever `key_ops` is null or lacks `verify`, `kty` is not `EC`, the hash name is unknown, or `crv` is unknown, whatever the other inputs; it throws if and only if all four gates pass and a decode fails or the import is refused, a failed decode of the signature, `x` or `y` as `FormatException` and a refused import as `CryptographicException`; `true` only when the gates pass, everything decodes and the oracle says `true` on the decoded point and signature |
| SignVerify.VerifyReturnsOracleVerdict | PublicKeyUtils/CryptoKeys/SignVerifyPublicKey.cs:71-88 | past the gates and the decoding, the ECDSA oracle's verdict is returned unchanged, for the hash and curve the tables name |
| EncryptDecrypt.ToBase64Standard | PublicKeyUtils/CryptoKeys/EncryptDecryptPublicKey.cs:29 | never fails; maps `-`→`+`, `_`→`/`, keeps other characters at their positions, appends exactly `(4 - len % 4) % 4` `=`; the result has length ≡ 0 mod 4 and contains no `-` or `_` |
| EncryptDecrypt.ToBase64StandardIdempotent | PublicKeyUtils/CryptoKeys/EncryptDecryptPublicKey.cs:29 | applying `ToBase64Standard` twice gives the same as once |
| EncryptDecrypt.ToBase64StandardCharacterised | PublicKeyUtils/CryptoKeys/EncryptDecryptPublicKey.cs:29 | any string of the padded length that spells the input in the standard alphabet and ends in `=` is exactly what `ToBase64Standard` returns |
| EncryptDecrypt.ToBase64StandardFixed | PublicKeyUtils/CryptoKeys/EncryptDecryptPublicKey.cs:29 | a string with no `-` or `_` whose length is a multiple of 4 is returned unchanged |
| EncryptDecrypt.TriplePaddingRejected | PublicKeyUtils/CryptoKeys/EncryptDecryptPublicKey.cs:27-29 | a field of length 1 mod 4 is normalised to a string ending in `===`, which decoding refuses with `FormatException` |
| EncryptDecrypt.Modulus | PublicKeyUtils/CryptoKeys/EncryptDecryptPublicKey.cs:27 | an `n` of length 1 mod 4 throws `FormatException` |
| EncryptDecrypt.Exponent | PublicKeyUtils/CryptoKeys/EncryptDecryptPublicKey.cs:28 | an `e` of length 1 mod 4 throws `FormatException` |
| EncryptDecrypt.EncryptionPadding | PublicKeyUtils/CryptoKeys/EncryptDecryptPublicKey.cs:31-44 | `RSA-OAEP`, `RSA-OAEP-256`, `RSA-OAEP-384`, `RSA-OAEP-512` map to OAEP with SHA-1, SHA-256, SHA-384, SHA-512; any success comes from one of these names; every other value, null included, throws `NotSupportedException` carrying it |
| EncryptDecrypt.OaepAlgorithmNameRoundTrip | PublicKeyUtils/CryptoKeys/EncryptDecryptPublicKey.cs:35-42 | every OAEP variant is found under its JWK `alg` name |
| EncryptDecrypt.IsEncryptionAllowed | PublicKeyUtils/CryptoKeys/EncryptDecryptPublicKey.cs:46 | throws `ArgumentNullException` if and only if `key_ops` is null; otherwise true exactly when it contains `encrypt` |
| EncryptDecrypt.Encrypt | PublicKeyUtils/CryptoKeys/EncryptDecryptPublicKey.cs:48-63 | null `key_ops` throws `ArgumentNullException`; `key_ops` without `encrypt` gives the empty byte string; when permitted, a failing `n` decode and then a failing `e` decode is what is thrown, and a refused import is a `CryptographicException`; `NotSupportedException` exactly when permitted, `n`/`e` decode, the key imports and `alg` is unsupported; once the oracle is reached its ciphertext is the answer and its refusal a `CryptographicException`; any other success is the oracle's ciphertext for the decoded, imported key and the mapped padding |
| EncryptDecrypt.EncryptionOracleUnreached | PublicKeyUtils/CryptoKeys/EncryptDecryptPublicKey.cs:48-63 | when the encryption oracle is not reached, the result does not depend on it, and the only possible success is the empty byte string |
| EncryptDecrypt.DecodeFailurePrecedesAlgorithm | PublicKeyUtils/CryptoKeys/EncryptDecryptPublicKey.cs:54-60 | with `encrypt` permitted, any `n` or `e` that fails to decode throws `FormatException` even when `alg` is unsupported |
| Normalisers.AstralCharacterRejected | PublicKeyUtils/CryptoKeys/SignVerifyPublicKey.cs:73-83 | a coordinate, `n` or `e` holding a character outside the Basic Multilingual Plane fails to decode with `FormatException` (EncryptDecryptPublicKey.cs:27-29), whichever length rule applied before decoding |
| Normalisers.NormalisersAgree | PublicKeyUtils/CryptoKeys/SignVerifyPublicKey.cs:97-105 | `Base64UrlToBase64` and `ToBase64Standard` (EncryptDecryptPublicKey.cs:29) return the same string for every length not 1 mod 4; for length 1 mod 4 the first throws and the second appends `===` |
| Normalisers.ToBase64Url | PublicKeyUtils.Tests/CryptoKeys/SignVerifyPublicKeyTests.cs:26-27 | the tests' base64url is the standard encoding less its padding, in the URL-safe alphabet: no `+`, `/` or `=`, and its length is never 1 mod 4 |
| Normalisers.UrlNormalisesToStandard | PublicKeyUtils/CryptoKeys/SignVerifyPublicKey.cs:73-74 | either normaliser turns the tests' base64url of any bytes back into exactly what `Convert.ToBase64String` wrote |
| Normalisers.UrlRoundTrip | PublicKeyUtils/CryptoKeys/SignVerifyPublicKey.cs:73-83 | base64url written from any bytes decodes back to those bytes, as a point coordinate and as `n`/`e` |
| Normalisers.ModulusExponentRoundTrip | PublicKeyUtils/CryptoKeys/EncryptDecryptPublicKey.cs:27-28 | `Modulus` and `Exponent` give back the bytes that `n` and `e` were written from |
| Normalisers.StripToUrlRestored | PublicKeyUtils.Tests/CryptoKeys/SignVerifyPublicKeyTests.cs:26-27 | undoing the tests' rewriting (`+`→`-`, `/`→`_`, `=` trimmed) with either normaliser restores the well-padded standard encoding exactly |
| Normalisers.DecodeAQAB | PublicKeyUtils.Tests/CryptoKeys/EncryptDecryptPublicKeyTests.cs:8-22 | the string `AQAB` decodes to the bytes 1, 0, 1 |
| Normalisers.ExponentOfAQAB | PublicKeyUtils.Tests/CryptoKeys/EncryptDecryptPublicKeyTests.cs:8-22 | `e = "AQAB"` decodes to the bytes 1, 0, 1 (65537) |
| Normalisers.VerifyRoundTrip | PublicKeyUtils.Tests/CryptoKeys/SignVerifyPublicKeyTests.cs:9-37 | a key built like the accepting test returns exactly the ECDSA oracle's verdict on the original point, signature and hash |

## Left out

- The RSA-OAEP and ECDSA mathematics, and the key validation inside `ImportParameters`. These are calls into `System.Security.Cryptography` and appear only as oracles.
- The property that `Encrypt` returns a non-empty ciphertext for a valid key. It holds only if the platform's RSA is correct, and nothing is assumed about the oracle.
- `Encoding.UTF8.GetBytes`. The message and the plaintext are byte strings.
- The leniencies of `Convert.FromBase64String`, such as skipping whitespace. Decoding follows section 4 of RFC 4648 strictly. Non-zero leftover bits in a padded last group are ignored, not rejected.
- `Console.WriteLine` diagnostics. They do not change control flow.
- JSON property attributes and deserialization.
- The unused fields `Ext` (both classes) and `Kty` (the RSA class).
- Disposal of the `ECDsa` (`using var`) and the undisposed `RSA`. `RSA.Create` and `ECDsa.Create` cannot fail here, so they are not steps of the model.
- Null `X`, `Y`, `N`, `E`, `Crv`, hash name, signature, message and plaintext. These are plain strings or byte strings, because null there only makes a .NET method throw. `KeyOps`, `Kty` and `alg` are nullable, because the code decides on their null.
- The order of the hash check before the curve check. It can be seen only in the console output, with a null `Crv` and with a null hash name, and all three are left out. The model proves instead that each failing gate gives `false` on its own.
- EncryptDecrypt.IsEncryptionAllowed: a C# 14 compiler would bind `KeyOps.Contains` to `MemoryExtensions.Contains` over a span instead. There a null array reads as empty, the answer is `false` and `Encrypt` returns the empty byte string. The model follows the `Enumerable.Contains` binding of the C# versions before it.
- SignVerify.Base64UrlToBase64: strings here are sequences of Unicode scalar values, while C# `Length` counts UTF-16 code units. The two differ only for characters outside the Basic Multilingual Plane, where the modulo-4 test can decide differently (`"\U{1F600}AAA"` is 5 code units, so the source throws, but 4 scalar values). Every such input still fails to decode with `FormatException` (`Normalisers.AstralCharacterRejected`).
- EncryptDecrypt.ToBase64Standard: the `=` padding is counted from the length in Unicode scalar values, not in UTF-16 code units as C# `Length` does. The two differ only for characters outside the Basic Multilingual Plane (`"\U{1F600}"` gets `==` in the source and `===` here). Every such input still fails to decode with `FormatException` (`Normalisers.AstralCharacterRejected`).
