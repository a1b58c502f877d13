/** The .NET library calls the provider depends on, passed in as functions, with
    the sizes and laws of those library types that the provider relies on. */
module Library {
  import opened Common

  /** The key size used: the largest legal `AesManaged` key, 256 bits. */
  const KeySizeBits: nat := 256
  /** The AES block size, 128 bits; the IV is one block. */
  const BlockSizeBits: nat := 128
  const KeyBytes: nat := KeySizeBits / 8
  const BlockBytes: nat := BlockSizeBits / 8
  /** `Rfc2898DeriveBytes` refuses a salt shorter than eight bytes. */
  const MinSaltBytes: nat := 8

  /** The .NET library functions the provider calls, none of which is modelled
      in detail:
      - `aesEncrypt` / `aesDecrypt`: the `AesManaged` encryptor and decryptor
        (CBC with PKCS7 padding) for a key and IV; decryption fails on bad padding;
      - `base64Encode` / `base64Decode`: `Convert.ToBase64String` and
        `Convert.FromBase64String` (RFC 4648, section 4); decoding is partial;
      - `utf8GetBytes`: `Encoding.UTF8.GetBytes`;
      - `writeText` / `readText`: the bytes a UTF-8 `StreamWriter` writes for a
        string, and the string a UTF-8 `StreamReader` reads back from bytes;
      - `pbkdf2`: byte `i` of the `Rfc2898DeriveBytes` stream (PBKDF2 with
        HMAC-SHA1 and the default iteration count, section 5.2 of RFC 2898) for
        a password and salt. */
  datatype Primitives = Primitives(
    aesEncrypt: (seq<byte>, seq<byte>, seq<byte>) -> seq<byte>,
    aesDecrypt: (seq<byte>, seq<byte>, seq<byte>) -> Option<seq<byte>>,
    base64Encode: seq<byte> -> string,
    base64Decode: string -> Option<seq<byte>>,
    utf8GetBytes: string -> seq<byte>,
    writeText: string -> seq<byte>,
    readText: seq<byte> -> string,
    pbkdf2: (string, seq<byte>, nat) -> byte)

  /** The laws the real library functions obey and the provider relies on. */
  ghost predicate Lawful(p: Primitives) {
    // AES-CBC decryption undoes encryption under the same 256-bit key and IV,
    // and PKCS7 padding always adds between one byte and one block.
    && (forall key, iv, m :: |key| == KeyBytes && |iv| == BlockBytes ==>
          p.aesDecrypt(key, iv, p.aesEncrypt(key, iv, m)) == Some(m))
    && (forall key, iv, m :: |key| == KeyBytes && |iv| == BlockBytes ==>
          |p.aesEncrypt(key, iv, m)| == (|m| / BlockBytes + 1) * BlockBytes)
    // Base64 decoding undoes encoding; four characters per started three bytes.
    && (forall b :: p.base64Decode(p.base64Encode(b)) == Some(b))
    && (forall b :: |p.base64Encode(b)| == (|b| + 2) / 3 * 4)
    // A UTF-8 reader gives back what a UTF-8 writer wrote.
    && (forall s :: p.readText(p.writeText(s)) == s)
  }
}
