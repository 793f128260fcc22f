/** The two base64url normalisers side by side, and what they do to the
    base64url the test suites write: `Convert.ToBase64String` with `+` and
    `/` replaced by `-` and `_` and the `=` padding trimmed. */
module Normalisers {
  import opened DotNet
  import opened Base64
  import opened Crypto
  import SignVerify
  import EncryptDecrypt

  /** The two normalisers agree on every length except 1 modulo 4, where
      `Base64UrlToBase64` throws and `ToBase64Standard` appends `===`. */
  lemma NormalisersAgree(s: string)
    ensures |s| % 4 != 1 ==> SignVerify.Base64UrlToBase64(s) == Ok(EncryptDecrypt.ToBase64Standard(s))
    ensures |s| % 4 == 1 ==>
      && SignVerify.Base64UrlToBase64(s) == Throw(FormatException)
      && EncryptDecrypt.ToBase64Standard(s)[|s|..] == "==="
  {
    var t := EncryptDecrypt.ToBase64Standard(s);
    if |s| % 4 != 1 {
      var u := SignVerify.Base64UrlToBase64(s).value;
      if |s| % 4 == 2 {
        assert u[|s|..] == "==";
        assert u[|s|] == '=' && u[|s| + 1] == '=';
      } else if |s| % 4 == 3 {
        assert u[|s|..] == "=";
        assert u[|s|] == '=';
      }
      assert |u| == |t|;
      assert forall i :: 0 <= i < |u| ==> u[i] == t[i];
      assert u == t;
    } else {
      assert |t| == |s| + 3;
    }
  }

  /** A character outside the Basic Multilingual Plane, which C# would
      count as two UTF-16 code units, is never base64: whatever length rule
      applies, the field fails to decode with `FormatException`. */
  lemma AstralCharacterRejected(s: string, i: nat)
    requires i < |s| && s[i] as int >= 0x1_0000
    ensures SignVerify.DecodeCoordinate(s) == Throw(FormatException)
    ensures FromBase64String(EncryptDecrypt.ToBase64Standard(s)) == Throw(FormatException)
  {
    var t := EncryptDecrypt.ToBase64Standard(s);
    assert t[i] == s[i];
    DecodedChars(t);
  }

  /** Trimming `=` from a string that is `=` exactly from `p` on cuts it
      back to its first `p` characters. */
  lemma {:induction false} TrimPadding(u: string, p: nat)
    requires p <= |u|
    requires forall i :: 0 <= i < p ==> u[i] != '='
    requires forall i :: p <= i < |u| ==> u[i] == '='
    ensures TrimEnd(u, '=') == u[..p]
    decreases |u|
  {
    if p < |u| {
      var v := u[..|u| - 1];
      TrimPadding(v, p);
      assert v[..p] == u[..p];
    } else {
      assert u[..p] == u;
    }
  }

  /** A multiple of four less at most two closing `=` is never 1 modulo 4,
      and padding it back to a multiple of four restores exactly those `=`. */
  lemma PaddedGroups(len: nat, pad: nat)
    requires len % 4 == 0 && pad <= 2 && pad <= len
    ensures (len - pad) % 4 != 1
    ensures (4 - (len - pad) % 4) % 4 == pad
  {
    if pad > 0 {
      assert len - pad == 4 * (len / 4 - 1) + (4 - pad);
    }
  }

  /** A standard character spelled in the URL-safe alphabet is neither
      `=`, `+` nor `/`, and `StandardChar` spells it back. */
  lemma UrlSpelling(c: char)
    requires IsAlphabetChar(c)
    ensures var u := if c == '+' then '-' else if c == '/' then '_' else c;
            StandardChar(u) == c && u != '=' && u != '+' && u != '/'
  {
  }

  /** The test suites' rewriting of a standard encoding into base64url:
      `.Replace("+", "-").Replace("/", "_").TrimEnd('=')`. */
  function StripToUrl(e: string): string {
    TrimEnd(Replace(Replace(e, '+', '-'), '/', '_'), '=')
  }

  /** What the rewriting leaves of a well-padded encoding: the characters
      before the padding, each spelled in the URL-safe alphabet. */
  lemma StripToUrlShape(e: string, pad: nat)
    requires WellPadded(e, pad)
    ensures var r := StripToUrl(e);
            && |r| == |e| - pad
            && forall i :: 0 <= i < |r| ==>
                 StandardChar(r[i]) == e[i] && r[i] != '=' && r[i] != '+' && r[i] != '/'
  {
    var u1 := Replace(e, '+', '-');
    var u := Replace(u1, '/', '_');
    var p := |e| - pad;
    forall i | 0 <= i < p
      ensures StandardChar(u[i]) == e[i]
      ensures u[i] != '=' && u[i] != '+' && u[i] != '/'
    {
      assert u1[i] == if e[i] == '+' then '-' else e[i];
      assert u[i] == if u1[i] == '/' then '_' else u1[i];
      UrlSpelling(e[i]);
    }
    forall i | p <= i < |u|
      ensures u[i] == '='
    {
      assert u1[i] == e[i];
    }
    TrimPadding(u, p);
    var r := TrimEnd(u, '=');
    assert forall i :: 0 <= i < |r| ==> r[i] == u[i];
  }

  /** Either normaliser turns a string that spells a well-padded encoding,
      less its padding, back into that encoding. */
  lemma PaddingRestored(u: string, e: string, pad: nat)
    requires WellPadded(e, pad)
    requires |u| == |e| - pad
    requires forall i :: 0 <= i < |u| ==> StandardChar(u[i]) == e[i]
    ensures EncryptDecrypt.ToBase64Standard(u) == e
    ensures SignVerify.Base64UrlToBase64(u) == Ok(e)
  {
    PaddedGroups(|e|, pad);
    EncryptDecrypt.ToBase64StandardCharacterised(u, e);
    NormalisersAgree(u);
  }

  /** Either normaliser undoes the rewriting of a well-padded encoding. */
  lemma StripToUrlRestored(e: string, pad: nat)
    requires WellPadded(e, pad)
    ensures EncryptDecrypt.ToBase64Standard(StripToUrl(e)) == e
    ensures SignVerify.Base64UrlToBase64(StripToUrl(e)) == Ok(e)
  {
    StripToUrlShape(e, pad);
    PaddingRestored(StripToUrl(e), e, pad);
  }

  /** The base64url encoding the test suites build from
      `Convert.ToBase64String`. */
  function ToBase64Url(b: seq<byte>): (r: string)
    ensures |r| == |ToBase64String(b)| - PadCount(|b|)
    ensures |r| % 4 != 1
    ensures forall i :: 0 <= i < |r| ==> StandardChar(r[i]) == ToBase64String(b)[i]
    ensures '+' !in r && '/' !in r && '=' !in r
  {
    var e := ToBase64String(b);
    StripToUrlShape(e, PadCount(|b|));
    PaddedGroups(|e|, PadCount(|b|));
    StripToUrl(e)
  }

  /** Normalising the test suites' base64url restores exactly what
      `Convert.ToBase64String` wrote, through either normaliser. */
  lemma UrlNormalisesToStandard(b: seq<byte>)
    ensures EncryptDecrypt.ToBase64Standard(ToBase64Url(b)) == ToBase64String(b)
    ensures SignVerify.Base64UrlToBase64(ToBase64Url(b)) == Ok(ToBase64String(b))
  {
    StripToUrlRestored(ToBase64String(b), PadCount(|b|));
  }

  /** Base64url written by the test suites decodes back to the bytes it was
      written from, as a coordinate of `Verify` and as `n` or `e`. */
  lemma UrlRoundTrip(b: seq<byte>)
    ensures SignVerify.DecodeCoordinate(ToBase64Url(b)) == Ok(b)
    ensures FromBase64String(EncryptDecrypt.ToBase64Standard(ToBase64Url(b))) == Ok(b)
  {
    UrlNormalisesToStandard(b);
    DecodeEncode(b);
  }

  /** `Modulus` and `Exponent` give back the bytes `n` and `e` encode. */
  lemma ModulusExponentRoundTrip(key: EncryptDecrypt.EncryptDecryptPublicKey, n: seq<byte>, e: seq<byte>)
    requires key.N == ToBase64Url(n) && key.E == ToBase64Url(e)
    ensures EncryptDecrypt.Modulus(key) == Ok(n)
    ensures EncryptDecrypt.Exponent(key) == Ok(e)
  {
    UrlRoundTrip(n);
    UrlRoundTrip(e);
  }

  /** `AQAB` decodes to the bytes 1, 0, 1. */
  lemma DecodeAQAB()
    ensures FromBase64String("AQAB") == Ok([1, 0, 1])
  {
    DecodeSingleGroup("AQAB");
    assert CharValue('A') == Some(0) && CharValue('Q') == Some(16) && CharValue('B') == Some(1);
    assert Join([0, 16, 0, 1]) == [1, 0, 1];
  }

  /** The exponent `AQAB` is 65537, the bytes 1, 0, 1. */
  lemma ExponentOfAQAB(key: EncryptDecrypt.EncryptDecryptPublicKey)
    requires key.E == "AQAB"
    ensures EncryptDecrypt.Exponent(key) == Ok([1, 0, 1])
  {
    EncryptDecrypt.ToBase64StandardFixed("AQAB");
    DecodeAQAB();
  }

  /** The accepting round trip: a key whose point and signature were written
      the way the test suite writes them, with "verify" permitted, type "EC"
      and known names, answers exactly what the platform's ECDSA says about
      the original bytes. */
  lemma VerifyRoundTrip(key: SignVerify.SignVerifyPublicKey, message: seq<byte>, ecdsa: EcdsaProvider,
                        hash: HashAlgorithmName, curve: ECCurve,
                        x: seq<byte>, y: seq<byte>, signature: seq<byte>)
    requires key.KeyOps.Some? && "verify" in key.KeyOps.value && key.Kty == Some("EC")
    requires key.Crv == SignVerify.CurveName(curve)
    requires key.X == ToBase64Url(x) && key.Y == ToBase64Url(y)
    requires ecdsa.ImportParameters(curve, x, y)
    ensures SignVerify.Verify(key, SignVerify.HashName(hash), message, ToBase64String(signature), ecdsa)
            == Ok(ecdsa.VerifyData(curve, x, y, message, signature, hash))
  {
    UrlRoundTrip(x);
    UrlRoundTrip(y);
    DecodeEncode(signature);
    SignVerify.VerifyReturnsOracleVerdict(key, SignVerify.HashName(hash), message, ToBase64String(signature),
                                          ecdsa, hash, curve, signature, x, y);
  }
}
