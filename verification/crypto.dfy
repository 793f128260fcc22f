/** The names the key classes take from `System.Security.Cryptography`, and
    the platform's RSA and ECDSA primitives as oracles. The oracles are
    plain function values handed in by the caller: nothing is assumed about
    what they compute, so every property proved about the key classes holds
    for whatever the platform does. */
module Crypto {
  import opened DotNet

  /** `HashAlgorithmName.SHA1` ... `HashAlgorithmName.SHA512`. */
  datatype HashAlgorithmName = SHA1 | SHA256 | SHA384 | SHA512

  /** `ECCurve.NamedCurves.nistP256`, `nistP384`, `nistP521`. */
  datatype ECCurve = NistP256 | NistP384 | NistP521

  /** `RSAEncryptionPadding.OaepSHA1` ... `OaepSHA512`: OAEP with a hash. */
  datatype RSAEncryptionPadding = Oaep(hash: HashAlgorithmName)

  /** The platform's RSA. `ImportParameters(modulus, exponent)` is false when
      the import throws a `CryptographicException`; `Encrypt(modulus, exponent,
      plaintext, padding)` is `None` when encryption throws one. */
  datatype RsaProvider = RsaProvider(
    ImportParameters: (seq<byte>, seq<byte>) -> bool,
    Encrypt: (seq<byte>, seq<byte>, seq<byte>, RSAEncryptionPadding) -> Option<seq<byte>>)

  /** The platform's ECDSA. `ImportParameters(curve, x, y)` is false when the
      import throws a `CryptographicException`; `VerifyData(curve, x, y,
      message, signature, hash)` is the signature check's verdict. */
  datatype EcdsaProvider = EcdsaProvider(
    ImportParameters: (ECCurve, seq<byte>, seq<byte>) -> bool,
    VerifyData: (ECCurve, seq<byte>, seq<byte>, seq<byte>, seq<byte>, HashAlgorithmName) -> bool)
}
