/** `EncryptString` and `DecryptString`: text to a Base64 envelope of its AES
    ciphertext and back, with null or empty text passed through as `""`. */
module Envelope {
  import opened Common
  import opened Library
  import opened KeyDerivation

  /** `EncryptString` with the provider's current AES instance `aes`. */
  function EncryptString(p: Primitives, aes: Option<KeyMaterial>, plainText: Option<string>): (r: Result<string>)
    ensures r.Err? <==> !IsNullOrEmpty(plainText) && aes.None?
    ensures r.Err? ==> r.error == NullReferenceError
  {
    if IsNullOrEmpty(plainText) then Ok("")
    else
      match aes
      case None => Err(NullReferenceError)
      case Some(k) => Ok(p.base64Encode(p.aesEncrypt(k.key, k.iv, p.writeText(plainText.value))))
  }

  /** `DecryptString` with the provider's current AES instance `aes`: the
      decryptor is created first, then the envelope is Base64-decoded, then the
      plaintext is read through the decrypting stream. */
  function DecryptString(p: Primitives, aes: Option<KeyMaterial>, encryptedValue: Option<string>): (r: Result<string>)
    ensures r.Err? ==> !IsNullOrEmpty(encryptedValue)
    ensures r.Err? ==> r.error == NullReferenceError || r.error == FormatError || r.error == CryptographicError
    ensures r.Err? && r.error == NullReferenceError <==> !IsNullOrEmpty(encryptedValue) && aes.None?
  {
    if IsNullOrEmpty(encryptedValue) then Ok("")
    else
      match aes
      case None => Err(NullReferenceError)
      case Some(k) =>
        match p.base64Decode(encryptedValue.value)
        case None => Err(FormatError)
        case Some(encryptedBlock) =>
          match p.aesDecrypt(k.key, k.iv, encryptedBlock)
          case None => Err(CryptographicError)
          case Some(bytes) => Ok(p.readText(bytes))
  }

  /** Null or empty input gives `""` without touching the AES instance, which
      may be missing. */
  lemma EmptyInputShortCircuits(p: Primitives, aes: Option<KeyMaterial>, text: Option<string>)
    requires IsNullOrEmpty(text)
    ensures EncryptString(p, aes, text) == Ok("")
    ensures DecryptString(p, aes, text) == Ok("")
  {
  }

  /** Non-empty input with no AES instance (before a key is created, or after
      disposal) fails with a null reference, before any Base64 check. */
  lemma MissingKeyFails(p: Primitives, text: string)
    requires text != ""
    ensures EncryptString(p, None, Some(text)) == Err(NullReferenceError)
    ensures DecryptString(p, None, Some(text)) == Err(NullReferenceError)
  {
  }

  /** With a key, text that is not Base64 is rejected with `FormatException`,
      and a ciphertext whose padding does not check out with the
      `CryptographicException` of the decrypting stream. */
  lemma DecryptFailures(p: Primitives, k: KeyMaterial, text: string)
    requires text != ""
    ensures p.base64Decode(text).None? ==> DecryptString(p, Some(k), Some(text)) == Err(FormatError)
    ensures p.base64Decode(text).Some? && p.aesDecrypt(k.key, k.iv, p.base64Decode(text).value).None? ==>
              DecryptString(p, Some(k), Some(text)) == Err(CryptographicError)
  {
  }

  /** With a key, a non-empty plaintext gives a non-empty envelope whose length
      is that of the Base64 text of a whole number of AES blocks. */
  lemma EnvelopeLength(p: Primitives, k: KeyMaterial, plainText: string)
    requires Lawful(p) && ValidKeyMaterial(k) && plainText != ""
    ensures EncryptString(p, Some(k), Some(plainText)).Ok?
    ensures var n := |p.writeText(plainText)|;
            |EncryptString(p, Some(k), Some(plainText)).value| == ((n / BlockBytes + 1) * BlockBytes + 2) / 3 * 4
    ensures |EncryptString(p, Some(k), Some(plainText)).value| >= 24
  {
    var n := |p.writeText(plainText)|;
    var cipher := p.aesEncrypt(k.key, k.iv, p.writeText(plainText));
    assert BlockBytes == 16;
    var q := n / 16;
    assert |cipher| == (q + 1) * 16 == 16 * q + 16;
    var c := |cipher|;
    assert |p.base64Encode(cipher)| == (c + 2) / 3 * 4;
    assert (c + 2) / 3 >= 6;
  }

  /** Decrypting what was encrypted under the same key gives the plaintext back,
      null becoming `""`. */
  lemma EnvelopeRoundTrip(p: Primitives, k: KeyMaterial, plainText: Option<string>)
    requires Lawful(p) && ValidKeyMaterial(k)
    ensures EncryptString(p, Some(k), plainText).Ok?
    ensures DecryptString(p, Some(k), Some(EncryptString(p, Some(k), plainText).value)) == Ok(plainText.GetOr(""))
  {
    if !IsNullOrEmpty(plainText) {
      var written := p.writeText(plainText.value);
      var cipher := p.aesEncrypt(k.key, k.iv, written);
      EnvelopeLength(p, k, plainText.value);
      assert p.base64Decode(p.base64Encode(cipher)) == Some(cipher);
      assert p.aesDecrypt(k.key, k.iv, cipher) == Some(written);
      assert p.readText(written) == plainText.value;
    }
  }
}
