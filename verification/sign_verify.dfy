/** `SignVerifyPublicKey`: an EC public key in JSON Web Key form that checks
    ECDSA signatures. `Verify` runs four gates (key_ops, kty, hash name,
    curve name), any of which answers `false`; only past all four does it
    decode the signature and the point and consult the platform's ECDSA. */
module SignVerify {
  import opened DotNet
  import opened Base64
  import opened Crypto

  /** The JWK fields `Verify` reads. `KeyOps` and `Kty` may be null; `Ext`
      is carried by the class but never read, so it is not modelled. */
  datatype SignVerifyPublicKey = SignVerifyPublicKey(
    X: string,
    Y: string,
    Crv: string,
    KeyOps: Option<seq<string>>,
    Kty: Option<string>)

  /** The JOSE name of each hash, the reference the lookup table is read
      against. */
  function HashName(h: HashAlgorithmName): string {
    match h
    case SHA1 => "SHA-1"
    case SHA256 => "SHA-256"
    case SHA384 => "SHA-384"
    case SHA512 => "SHA-512"
  }

  /** The JWK `crv` name of each curve. */
  function CurveName(c: ECCurve): string {
    match c
    case NistP256 => "P-256"
    case NistP384 => "P-384"
    case NistP521 => "P-521"
  }

  /** The dictionary of hash names `Verify` builds. */
  const HashAlgorithmNames: map<string, HashAlgorithmName> :=
    map["SHA-1" := SHA1, "SHA-256" := SHA256, "SHA-384" := SHA384, "SHA-512" := SHA512]

  /** The dictionary of curve names `Verify` builds. */
  const NamedCurves: map<string, ECCurve> :=
    map["P-256" := NistP256, "P-384" := NistP384, "P-521" := NistP521]

  /** Looks a hash name up, exactly and case-sensitively: the four JOSE
      names are found, each as the hash it names, and nothing else is. */
  function HashAlgorithmByName(name: string): (r: Option<HashAlgorithmName>)
    ensures r.Some? <==> name == "SHA-1" || name == "SHA-256" || name == "SHA-384" || name == "SHA-512"
    ensures r.Some? ==> HashName(r.value) == name
  {
    TryGetValue(HashAlgorithmNames, name)
  }

  /** Looks a curve name up: the three NIST names are found, each as the
      curve it names, and nothing else is. */
  function CurveByName(crv: string): (r: Option<ECCurve>)
    ensures r.Some? <==> crv == "P-256" || crv == "P-384" || crv == "P-521"
    ensures r.Some? ==> CurveName(r.value) == crv
  {
    TryGetValue(NamedCurves, crv)
  }

  /** Every hash is found under its own name. */
  lemma HashNameRoundTrip(h: HashAlgorithmName)
    ensures HashAlgorithmByName(HashName(h)) == Some(h)
  {
  }

  /** Every curve is found under its own name. */
  lemma CurveNameRoundTrip(c: ECCurve)
    ensures CurveByName(CurveName(c)) == Some(c)
  {
  }

  /** Rewrites base64url (section 5 of RFC 4648) into standard base64
      (section 4): `-` and `_` become `+` and `/`, and `=` padding is added
      by the length modulo 4. A remainder of 1 cannot come from any byte
      string and is a `FormatException`. */
  function Base64UrlToBase64(base64Url: string): (r: Result<string>)
    ensures r.Throw? <==> |base64Url| % 4 == 1
    ensures r.Throw? ==> r.error == FormatException
    ensures r.Ok? ==> |base64Url| <= |r.value| && |r.value| % 4 == 0
    ensures r.Ok? ==> forall i :: 0 <= i < |base64Url| ==> r.value[i] == StandardChar(base64Url[i])
    ensures |base64Url| % 4 == 0 ==> r.Ok? && |r.value| == |base64Url|
    ensures |base64Url| % 4 == 2 ==> r.Ok? && r.value[|base64Url|..] == "=="
    ensures |base64Url| % 4 == 3 ==> r.Ok? && r.value[|base64Url|..] == "="
  {
    var base64 := Replace(Replace(base64Url, '-', '+'), '_', '/');
    match |base64| % 4
    case 2 => Ok(base64 + "==")
    case 3 => Ok(base64 + "=")
    case 0 => Ok(base64)
    case _ => Throw(FormatException)
  }

  /** One coordinate of the point: base64url normalised, then decoded. Only
      `FormatException` can escape, and it does for a length of 1 modulo 4
      and for any character outside both alphabets other than `=`. */
  function DecodeCoordinate(coordinate: string): (r: Result<seq<byte>>)
    ensures r.Throw? ==> r.error == FormatException
    ensures |coordinate| % 4 == 1 ==> r == Throw(FormatException)
    ensures r.Ok? ==> forall i :: 0 <= i < |coordinate| ==>
                        coordinate[i] == '=' || IsAlphabetChar(StandardChar(coordinate[i]))
  {
    var standard :- Base64UrlToBase64(coordinate);
    DecodedChars(standard);
    FromBase64String(standard)
  }

  /** The four gates `Verify` runs before it decodes anything: "verify" is
      among the key's operations, the key type is "EC", and the hash and the
      curve are named in the tables. */
  predicate PassesGates(key: SignVerifyPublicKey, hashAlgorithm: string) {
    && key.KeyOps.Some? && "verify" in key.KeyOps.value
    && key.Kty == Some("EC")
    && hashAlgorithm in HashAlgorithmNames
    && key.Crv in NamedCurves
  }

  /** `Verify(hashAlgorithm, message, signatureAsBase64)`, with the message
      already as bytes and the platform's ECDSA as `ecdsa`. Every failed gate
      answers `false` whatever the other inputs; past the gates, a malformed
      signature or coordinate escapes as a `FormatException` and a rejected
      key as a `CryptographicException`; otherwise the oracle's verdict on the
      decoded point and signature, under the named hash and curve, is the
      answer. */
  function Verify(key: SignVerifyPublicKey, hashAlgorithm: string, message: seq<byte>,
                  signatureAsBase64: string, ecdsa: EcdsaProvider): (r: Result<bool>)
    ensures key.KeyOps.None? || "verify" !in key.KeyOps.value ==> r == Ok(false)
    ensures key.Kty != Some("EC") ==> r == Ok(false)
    ensures HashAlgorithmByName(hashAlgorithm).None? ==> r == Ok(false)
    ensures CurveByName(key.Crv).None? ==> r == Ok(false)
    ensures r.Throw? <==>
      && PassesGates(key, hashAlgorithm)
      && (|| FromBase64String(signatureAsBase64).Throw?
          || DecodeCoordinate(key.X).Throw?
          || DecodeCoordinate(key.Y).Throw?
          || !ecdsa.ImportParameters(CurveByName(key.Crv).value,
                                     DecodeCoordinate(key.X).value, DecodeCoordinate(key.Y).value))
    ensures r.Throw? ==> r.error == FormatException || r.error == CryptographicException
    ensures && PassesGates(key, hashAlgorithm)
            && (|| FromBase64String(signatureAsBase64).Throw?
                || DecodeCoordinate(key.X).Throw?
                || DecodeCoordinate(key.Y).Throw?)
            ==> r == Throw(FormatException)
    ensures && PassesGates(key, hashAlgorithm)
            && FromBase64String(signatureAsBase64).Ok?
            && DecodeCoordinate(key.X).Ok? && DecodeCoordinate(key.Y).Ok?
            && !ecdsa.ImportParameters(CurveByName(key.Crv).value,
                                       DecodeCoordinate(key.X).value, DecodeCoordinate(key.Y).value)
            ==> r == Throw(CryptographicException)
    ensures r == Ok(true) ==>
      && PassesGates(key, hashAlgorithm)
      && FromBase64String(signatureAsBase64).Ok?
      && DecodeCoordinate(key.X).Ok?
      && DecodeCoordinate(key.Y).Ok?
      && ecdsa.VerifyData(CurveByName(key.Crv).value,
                          DecodeCoordinate(key.X).value, DecodeCoordinate(key.Y).value,
                          message, FromBase64String(signatureAsBase64).value,
                          HashAlgorithmByName(hashAlgorithm).value)
  {
    if key.KeyOps.None? || "verify" !in key.KeyOps.value then Ok(false)
    else if key.Kty != Some("EC") then Ok(false)
    else match TryGetValue(HashAlgorithmNames, hashAlgorithm)
    case None => Ok(false)
    case Some(hashAlgorithmName) =>
      match TryGetValue(NamedCurves, key.Crv)
      case None => Ok(false)
      case Some(eCCurve) =>
        var signatureBytes :- FromBase64String(signatureAsBase64);
        var xBase64 :- Base64UrlToBase64(key.X);
        var yBase64 :- Base64UrlToBase64(key.Y);
        var x :- FromBase64String(xBase64);
        var y :- FromBase64String(yBase64);
        if !ecdsa.ImportParameters(eCCurve, x, y) then Throw(CryptographicException)
        else Ok(ecdsa.VerifyData(eCCurve, x, y, message, signatureBytes, hashAlgorithmName))
  }

  /** Past the gates and the decoding, the platform's answer is returned
      unchanged, for the hash and curve the tables name. */
  lemma VerifyReturnsOracleVerdict(key: SignVerifyPublicKey, hashAlgorithm: string, message: seq<byte>,
                                   signatureAsBase64: string, ecdsa: EcdsaProvider,
                                   hash: HashAlgorithmName, curve: ECCurve,
                                   signature: seq<byte>, x: seq<byte>, y: seq<byte>)
    requires key.KeyOps.Some? && "verify" in key.KeyOps.value && key.Kty == Some("EC")
    requires hashAlgorithm == HashName(hash) && key.Crv == CurveName(curve)
    requires FromBase64String(signatureAsBase64) == Ok(signature)
    requires DecodeCoordinate(key.X) == Ok(x) && DecodeCoordinate(key.Y) == Ok(y)
    requires ecdsa.ImportParameters(curve, x, y)
    ensures Verify(key, hashAlgorithm, message, signatureAsBase64, ecdsa)
            == Ok(ecdsa.VerifyData(curve, x, y, message, signature, hash))
  {
    HashNameRoundTrip(hash);
    CurveNameRoundTrip(curve);
  }
}
