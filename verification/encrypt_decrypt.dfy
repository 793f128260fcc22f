/** `EncryptDecryptPublicKey`: an RSA public key in JSON Web Key form that
    encrypts with RSA-OAEP. `Encrypt` answers an empty byte string when the
    key's operations do not include "encrypt"; otherwise it decodes `n` and
    `e`, imports them, and only then looks the OAEP hash up from `alg`. */
module EncryptDecrypt {
  import opened DotNet
  import opened Base64
  import opened Crypto

  /** The JWK fields `Encrypt` reads. `Algorithm` and `KeyOps` may be null;
      `Ext` and `Kty` are carried by the class but never read, so they are
      not modelled. */
  datatype EncryptDecryptPublicKey = EncryptDecryptPublicKey(
    Algorithm: Option<string>,
    E: string,
    KeyOps: Option<seq<string>>,
    N: string)

  /** Rewrites base64url into standard base64 in one expression: `-` and `_`
      become `+` and `/`, and `=` is appended up to the next multiple of four.
      Unlike `SignVerify.Base64UrlToBase64` it never fails: a length of 1
      modulo 4 gets three `=`. */
  function ToBase64Standard(base64: string): (r: string)
    ensures |r| == |base64| + (4 - |base64| % 4) % 4
    ensures |r| % 4 == 0
    ensures forall i :: 0 <= i < |base64| ==> r[i] == StandardChar(base64[i])
    ensures forall i :: |base64| <= i < |r| ==> r[i] == '='
    ensures '-' !in r && '_' !in r
  {
    PadRight(Replace(Replace(base64, '-', '+'), '_', '/'), |base64| + (4 - |base64| % 4) % 4, '=')
  }

  /** The output of `ToBase64Standard` is determined by its contract: any
      string of the right length that spells the input in the standard
      alphabet and pads it with `=` is that output. */
  lemma ToBase64StandardCharacterised(base64: string, e: string)
    requires |e| == |base64| + (4 - |base64| % 4) % 4
    requires forall i :: 0 <= i < |base64| ==> e[i] == StandardChar(base64[i])
    requires forall i :: |base64| <= i < |e| ==> e[i] == '='
    ensures ToBase64Standard(base64) == e
  {
    var r := ToBase64Standard(base64);
    assert forall i :: 0 <= i < |e| ==> r[i] == e[i];
  }

  /** A string already in the standard alphabet and a multiple of four long
      is left as it is. */
  lemma ToBase64StandardFixed(t: string)
    requires '-' !in t && '_' !in t && |t| % 4 == 0
    ensures ToBase64Standard(t) == t
  {
    forall i | 0 <= i < |t|
      ensures t[i] == StandardChar(t[i])
    {
      assert t[i] != '-' && t[i] != '_';
    }
    ToBase64StandardCharacterised(t, t);
  }

  /** Normalising twice is normalising once: the output has no `-` or `_`
      and its length is already a multiple of four. */
  lemma ToBase64StandardIdempotent(s: string)
    ensures ToBase64Standard(ToBase64Standard(s)) == ToBase64Standard(s)
  {
    ToBase64StandardFixed(ToBase64Standard(s));
  }

  /** The `Modulus` property: `n` normalised and decoded. */
  function Modulus(key: EncryptDecryptPublicKey): (r: Result<seq<byte>>)
    ensures |key.N| % 4 == 1 ==> r == Throw(FormatException)
  {
    TriplePaddingRejected(key.N);
    FromBase64String(ToBase64Standard(key.N))
  }

  /** The `Exponent` property: `e` normalised and decoded. */
  function Exponent(key: EncryptDecryptPublicKey): (r: Result<seq<byte>>)
    ensures |key.E| % 4 == 1 ==> r == Throw(FormatException)
  {
    TriplePaddingRejected(key.E);
    FromBase64String(ToBase64Standard(key.E))
  }

  /** A string whose length is 1 modulo 4 is normalised into one that ends in
      `===`, which base64 decoding refuses. */
  lemma TriplePaddingRejected(s: string)
    ensures |s| % 4 == 1 ==> FromBase64String(ToBase64Standard(s)) == Throw(FormatException)
  {
    if |s| % 4 == 1 {
      var t := ToBase64Standard(s);
      assert t[|t| - 3] == '=';
    }
  }

  /** The JWK `alg` name of each OAEP variant, the reference the mapping is
      read against. */
  function OaepAlgorithmName(padding: RSAEncryptionPadding): string {
    match padding.hash
    case SHA1 => "RSA-OAEP"
    case SHA256 => "RSA-OAEP-256"
    case SHA384 => "RSA-OAEP-384"
    case SHA512 => "RSA-OAEP-512"
  }

  /** The `RSAEncryptionPadding` property: the four OAEP names map to OAEP
      with SHA-1, SHA-256, SHA-384 and SHA-512; every other name, and a null
      one, is a `NotSupportedException` naming it. */
  function EncryptionPadding(algorithm: Option<string>): (r: Result<RSAEncryptionPadding>)
    ensures algorithm == Some("RSA-OAEP") ==> r == Ok(Oaep(SHA1))
    ensures algorithm == Some("RSA-OAEP-256") ==> r == Ok(Oaep(SHA256))
    ensures algorithm == Some("RSA-OAEP-384") ==> r == Ok(Oaep(SHA384))
    ensures algorithm == Some("RSA-OAEP-512") ==> r == Ok(Oaep(SHA512))
    ensures r.Ok? ==> algorithm == Some(OaepAlgorithmName(r.value))
    ensures r.Throw? ==> r.error == NotSupportedException(algorithm)
  {
    match algorithm
    case Some("RSA-OAEP") => Ok(Oaep(SHA1))
    case Some("RSA-OAEP-256") => Ok(Oaep(SHA256))
    case Some("RSA-OAEP-384") => Ok(Oaep(SHA384))
    case Some("RSA-OAEP-512") => Ok(Oaep(SHA512))
    case _ => Throw(NotSupportedException(algorithm))
  }

  /** Every OAEP variant is found under its own name. */
  lemma OaepAlgorithmNameRoundTrip(padding: RSAEncryptionPadding)
    ensures EncryptionPadding(Some(OaepAlgorithmName(padding))) == Ok(padding)
  {
  }

  /** `IsEncryptionAllowed`: whether "encrypt" is among the key's operations.
      The source calls `Contains` on `KeyOps` without a null check; on a
      `string[]` that is `Enumerable.Contains`, which throws
      `ArgumentNullException` for a missing `key_ops` instead of answering. */
  function IsEncryptionAllowed(key: EncryptDecryptPublicKey): (r: Result<bool>)
    ensures r.Throw? <==> key.KeyOps.None?
    ensures r.Throw? ==> r.error == ArgumentNullException
    ensures r.Ok? ==> (r.value <==> "encrypt" in key.KeyOps.value)
  {
    match key.KeyOps
    case None => Throw(ArgumentNullException)
    case Some(ops) => Ok("encrypt" in ops)
  }

  /** `Encrypt(plainText)`, with the plaintext already as bytes and the
      platform's RSA as `rsa`. The steps run in the source's order: the
      permission check, `Modulus`, `Exponent`, the key import, the padding
      lookup (an argument of the final call), and the encryption. */
  function Encrypt(key: EncryptDecryptPublicKey, plainText: seq<byte>, rsa: RsaProvider): (r: Result<seq<byte>>)
    ensures key.KeyOps.None? ==> r == Throw(ArgumentNullException)
    ensures key.KeyOps.Some? && "encrypt" !in key.KeyOps.value ==> r == Ok([])
    ensures r.Ok? && r.value != [] ==> key.KeyOps.Some? && "encrypt" in key.KeyOps.value
    ensures key.KeyOps.Some? && "encrypt" in key.KeyOps.value && Modulus(key).Throw? ==> r == Modulus(key).PropagateFailure()
    ensures key.KeyOps.Some? && "encrypt" in key.KeyOps.value && Modulus(key).Ok? && Exponent(key).Throw? ==>
      r == Exponent(key).PropagateFailure()
    ensures && key.KeyOps.Some? && "encrypt" in key.KeyOps.value
            && Modulus(key).Ok? && Exponent(key).Ok?
            && !rsa.ImportParameters(Modulus(key).value, Exponent(key).value)
            ==> r == Throw(CryptographicException)
    ensures r == Throw(NotSupportedException(key.Algorithm)) <==>
      && key.KeyOps.Some? && "encrypt" in key.KeyOps.value
      && Modulus(key).Ok? && Exponent(key).Ok?
      && rsa.ImportParameters(Modulus(key).value, Exponent(key).value)
      && EncryptionPadding(key.Algorithm).Throw?
    ensures ReachesEncryption(key, rsa) ==>
      r == match rsa.Encrypt(Modulus(key).value, Exponent(key).value, plainText, EncryptionPadding(key.Algorithm).value)
           case None => Throw(CryptographicException)
           case Some(cipherText) => Ok(cipherText)
    ensures r.Ok? && key.KeyOps.Some? && "encrypt" in key.KeyOps.value ==>
      && Modulus(key).Ok? && Exponent(key).Ok?
      && rsa.ImportParameters(Modulus(key).value, Exponent(key).value)
      && EncryptionPadding(key.Algorithm).Ok?
      && rsa.Encrypt(Modulus(key).value, Exponent(key).value, plainText,
                     EncryptionPadding(key.Algorithm).value) == Some(r.value)
  {
    var allowed :- IsEncryptionAllowed(key);
    if allowed then
      var modulus :- Modulus(key);
      var exponent :- Exponent(key);
      if !rsa.ImportParameters(modulus, exponent) then Throw(CryptographicException)
      else
        var padding :- EncryptionPadding(key.Algorithm);
        match rsa.Encrypt(modulus, exponent, plainText, padding)
        case None => Throw(CryptographicException)
        case Some(cipherText) => Ok(cipherText)
    else Ok([])
  }

  /** Whether `Encrypt` hands the plaintext to the platform's RSA encryption
      at all. */
  predicate ReachesEncryption(key: EncryptDecryptPublicKey, rsa: RsaProvider) {
    && key.KeyOps.Some? && "encrypt" in key.KeyOps.value
    && Modulus(key).Ok? && Exponent(key).Ok?
    && rsa.ImportParameters(Modulus(key).value, Exponent(key).value)
    && EncryptionPadding(key.Algorithm).Ok?
  }

  /** When `Encrypt` stops before the encryption oracle, what the oracle
      would compute makes no difference: two platforms that import keys
      alike give the same answer. */
  lemma EncryptionOracleUnreached(key: EncryptDecryptPublicKey, plainText: seq<byte>,
                                  rsa: RsaProvider, other: RsaProvider)
    requires !ReachesEncryption(key, rsa)
    requires other.ImportParameters == rsa.ImportParameters
    ensures Encrypt(key, plainText, rsa) == Encrypt(key, plainText, other)
    ensures Encrypt(key, plainText, rsa).Ok? ==> Encrypt(key, plainText, rsa) == Ok([])
  {
  }

  /** A malformed `n` or `e` is reported before an unsupported `alg` is
      noticed. */
  lemma DecodeFailurePrecedesAlgorithm(key: EncryptDecryptPublicKey, plainText: seq<byte>, rsa: RsaProvider)
    requires key.KeyOps.Some? && "encrypt" in key.KeyOps.value
    requires EncryptionPadding(key.Algorithm).Throw?
    requires Modulus(key).Throw? || (Modulus(key).Ok? && Exponent(key).Throw?)
    ensures Encrypt(key, plainText, rsa) == Throw(FormatException)
  {
  }
}
