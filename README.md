# Symmetric protected-configuration provider, modelled in Dafny

This project models the encryption core of `SymmetricProtectedConfigurationProvider`, a .NET
`ProtectedConfigurationProvider` that encrypts sections of `app.config` / `web.config` files
with AES. The key comes from a configured seed and salt through PBKDF2. The model covers:

- the hex codec (`HexToByte`, `ByteToHex`);
- the salt normaliser `PrepareSalt`, which tries hex, then Base64, then UTF-8;
- the key lifecycle over the fields `_name`, `_seed`, `_salt`, `_aes` and `_disposed`
  (`Initialize`, `CreateKey`, `DropAesInstance`, `Dispose`);
- the key layout: a 256-bit key and a 128-bit IV, read in that order from one PBKDF2 stream;
- the string envelope (`EncryptString`, `DecryptString`).

Modules, one per component of the source class:

| module | file | what |
|---|---|---|
| `Common` | common.dfy | bytes, nullable values, the exceptions, `IsNullOrEmpty` / `IsNullOrWhiteSpace` |
| `HexCodec` | hex_codec.dfy | digit and group parsing, reference decoder and encoder, the two methods, the round trip |
| `Library` | library.dfy | the library functions as parameters (`Primitives`), their laws (`Lawful`), the AES sizes and the salt minimum |
| `KeyDerivation` | key_derivation.dfy | the PBKDF2 stream, the key and IV taken from it, the generator |
| `Salt` | salt.dfy | `PrepareSalt` and its fallback order |
| `Envelope` | envelope.dfy | `EncryptString` / `DecryptString` and the round trip |
| `Lifecycle` | lifecycle.dfy | the provider's fields as a value, one transition function per operation, and their properties |
| `ConfigurationProvider` | provider.dfy | the provider as a class whose methods update its fields in place; each method is proved to match its transition function |

The .NET library calls are parameters, not axioms. These are AES encryption and decryption,
`Convert.To/FromBase64String`, `Encoding.UTF8`, the UTF-8 stream writer and reader, and the
`Rfc2898DeriveBytes` byte stream. A `Primitives` value holds them as functions. The ghost
predicate `Lawful` states what the real library guarantees:

- AES decryption undoes encryption for a 256-bit key and a 128-bit IV;
- PKCS7 padding adds between one byte and one block;
- Base64 decoding undoes encoding;
- a Base64 text has four characters for every three bytes started;
- the UTF-8 reader gives back what the UTF-8 writer wrote.

Lemmas that need these laws take `Lawful(p)` as a precondition.

Behaviour the model follows from the code, where a reading of the documentation could suggest otherwise:

- `HexToByte` allocates `(length - prefix) / 2` bytes, so an odd final digit is dropped, not
  rejected (`OddTrailingCharacterIgnored`). The doc comment only says an even count is expected.
- Each group goes through `Convert.ToByte(group, 16)`. Per .NET's number parser, this skips a
  leading `+`, so the group `+A` reads as 0x0A. It refuses `-` and a bare `0x`, and demands
  that the rest be digits (`ParseHexGroup`).
- `Rfc2898DeriveBytes` throws `ArgumentException` for a salt shorter than eight bytes. `CreateKey`
  builds the generator only after `DropAesInstance`, so such a salt leaves the provider with no
  AES instance (`CreateKeyResult`). This includes an all-blank salt, which `PrepareSalt` turns
  into no bytes.
- `EncryptString` and `DecryptString` do not check `_disposed`. With no AES instance (before
  `CreateKey`, or after `Dispose`) and non-empty input, both fail with a null reference.
  `DecryptString` creates the decryptor before it decodes Base64, so that failure comes first
  (`MissingKeyFails`).
- `CreateKey` never reads `_disposed`. A disposed provider can be re-keyed, and a later
  `Dispose` leaves that key in place (`RekeyAfterDispose`).
- `CreateKey` rejects only null or empty arguments; `Initialize` also rejects blank ones
  (`ValidationDiffers`).

## Model

| member | source | states |
|---|---|---|
| HexCodec.HexDigitValue | SymmetricProtectedConfigurationProvider/SymmetricProtectedConfigurationProvider.cs:349 | a character has a base-16 value exactly when it is 0-9, A-F or a-f; the value is below 16 and is the character's position in the upper-case or the lower-case digit table |
| HexCodec.HexDigitCaseInsensitive | SymmetricProtectedConfigurationProvider/SymmetricProtectedConfigurationProvider.cs:318-319 | a character and its upper-case form have the same digit value, or are both not digits |
| HexCodec.HexDigitChar | SymmetricProtectedConfigurationProvider/SymmetricProtectedConfigurationProvider.cs:310 | the digit written for a nibble is an upper-case hex digit whose value is that nibble |
| HexCodec.ParseHexGroup | SymmetricProtectedConfigurationProvider/SymmetricProtectedConfigurationProvider.cs:349 | a two-character group converts exactly when both are hex digits (value 16·hi + lo, either case) or the first is `+` and the second a digit; anything else throws |
| HexCodec.HexPrefixLength | SymmetricProtectedConfigurationProvider/SymmetricProtectedConfigurationProvider.cs:339-345 | the skipped prefix is 1 exactly for a leading `$`, 2 exactly for `0x`/`0X` or `&h`/`&H`, otherwise 0, and never longer than the text |
| HexCodec.HexDecode | SymmetricProtectedConfigurationProvider/SymmetricProtectedConfigurationProvider.cs:330-361 | what `HexToByte` returns or throws: the only exception is FormatException, and for text that is not blank the array has (length − prefix)/2 bytes |
| HexCodec.DecodeGroupsSpec | SymmetricProtectedConfigurationProvider/SymmetricProtectedConfigurationProvider.cs:347-349 | decoding succeeds iff every complete two-character group converts; it then gives length/2 bytes, byte k from group k, and otherwise fails only with FormatException |
| HexCodec.HexDecodeShape | SymmetricProtectedConfigurationProvider/SymmetricProtectedConfigurationProvider.cs:333-358 | for text that is not null or blank: success iff every group after the prefix converts; then exactly (length − prefix)/2 bytes, byte i from positions prefix+2i and prefix+2i+1; failure is FormatException |
| HexCodec.HexDecodeEmpty | SymmetricProtectedConfigurationProvider/SymmetricProtectedConfigurationProvider.cs:333-347 | null, empty, blank text, a bare prefix, or a prefix and one character give an empty array |
| HexCodec.HexDecodeCaseInsensitive | SymmetricProtectedConfigurationProvider/SymmetricProtectedConfigurationProvider.cs:318-349 | upper-casing the whole text changes neither the bytes returned nor whether it throws: prefix, blank test and every group read the same in either case |
| HexCodec.OddTrailingCharacterIgnored | SymmetricProtectedConfigurationProvider/SymmetricProtectedConfigurationProvider.cs:347-349 | appending one character after an even number of digits does not change the result: the odd last character is silently dropped |
| HexCodec.HexPrefixExamples | SymmetricProtectedConfigurationProvider/SymmetricProtectedConfigurationProvider.cs:339-349 | `$0A0B`, `0x0A0B`, `&H0a0b` and `0a0b` all give bytes 0A 0B |
| HexCodec.HexEdgeExamples | SymmetricProtectedConfigurationProvider/SymmetricProtectedConfigurationProvider.cs:333-358 | `0x0102` gives 01 02, `ABC` gives AB, `0x` gives nothing, `+A` gives 0A, and ` AB` throws FormatException |
| HexCodec.HexToByte | SymmetricProtectedConfigurationProvider/SymmetricProtectedConfigurationProvider.cs:330-361 | the method fills its array group by group and returns exactly the bytes of the reference decoder, or the same FormatException |
| HexCodec.HexEncode | SymmetricProtectedConfigurationProvider/SymmetricProtectedConfigurationProvider.cs:302-313 | the reference hex text of a byte sequence: two characters per byte |
| HexCodec.HexEncodeShape | SymmetricProtectedConfigurationProvider/SymmetricProtectedConfigurationProvider.cs:302-313 | the hex text of n bytes has 2n characters, all upper-case hex digits, with the high nibble of byte i at 2i and the low nibble at 2i+1 |
| HexCodec.ByteToHex | SymmetricProtectedConfigurationProvider/SymmetricProtectedConfigurationProvider.cs:302-313 | the method gives "" for a null or empty array and otherwise exactly the reference encoding of the array's bytes |
| HexCodec.HexRoundTrip | SymmetricProtectedConfigurationProvider/SymmetricProtectedConfigurationProvider.cs:302-361 | reading back the hex text of any byte sequence gives that sequence: the text is never blank and never starts with a prefix |
| KeyDerivation.StreamBytesAt | SymmetricProtectedConfigurationProvider/SymmetricProtectedConfigurationProvider.cs:227-228 | a read of count bytes from position start has length count and holds stream bytes start … start+count−1 |
| KeyDerivation.StreamBytesSplit | SymmetricProtectedConfigurationProvider/SymmetricProtectedConfigurationProvider.cs:224-228 | two consecutive reads of m and n bytes equal one read of m+n bytes |
| KeyDerivation.DeriveKeyMaterial | SymmetricProtectedConfigurationProvider/SymmetricProtectedConfigurationProvider.cs:223-231 | the installed key has 32 bytes and the IV 16, and key followed by IV is the first 48 bytes of the PBKDF2 stream of (seed, salt bytes) |
| KeyDerivation.DeriveBytesGenerator.constructor | SymmetricProtectedConfigurationProvider/SymmetricProtectedConfigurationProvider.cs:224 | a generator starts at stream position 0 and needs a salt of at least eight bytes |
| KeyDerivation.DeriveBytesGenerator.GetBytes | SymmetricProtectedConfigurationProvider/SymmetricProtectedConfigurationProvider.cs:227-228 | each call returns the next cb stream bytes and advances the position by cb |
| Salt.PrepareSalt | SymmetricProtectedConfigurationProvider/SymmetricProtectedConfigurationProvider.cs:269-294 | the salt bytes; whenever `HexToByte` accepts the text (null, empty and blank included) they are its bytes, else Base64's, else UTF-8's; it never throws |
| Salt.PrepareSaltOrder | SymmetricProtectedConfigurationProvider/SymmetricProtectedConfigurationProvider.cs:269-294 | for non-empty text, hex wins whenever it decodes; Base64 is used only when hex fails; UTF-8 bytes only when both fail; no exception escapes |
| Salt.PrepareSaltEmpty | SymmetricProtectedConfigurationProvider/SymmetricProtectedConfigurationProvider.cs:269-294 | null, empty and blank salts give no bytes |
| Salt.PrepareSaltPrefersHex | SymmetricProtectedConfigurationProvider/SymmetricProtectedConfigurationProvider.cs:276-279 | `AAAA` is read as hex AA AA whatever Base64 makes of it, and `0x0102` as 01 02 |
| Salt.PrepareSaltOfHexText | SymmetricProtectedConfigurationProvider/SymmetricProtectedConfigurationProvider.cs:276-279 | a salt written as the hex text of some bytes yields exactly those bytes |
| Salt.PrepareSaltOfBase64Text | SymmetricProtectedConfigurationProvider/SymmetricProtectedConfigurationProvider.cs:280-285 | a Base64 salt that is not also valid hex yields the bytes it encodes |
| Envelope.EncryptString | SymmetricProtectedConfigurationProvider/SymmetricProtectedConfigurationProvider.cs:141-166 | fails exactly when the input is not null or empty and there is no AES instance, and then only with a null reference; otherwise the Base64 text of the ciphertext of the UTF-8 text |
| Envelope.DecryptString | SymmetricProtectedConfigurationProvider/SymmetricProtectedConfigurationProvider.cs:178-203 | never fails on null or empty input; fails only with a null reference (exactly when there is no AES instance), FormatException or CryptographicException |
| Envelope.EmptyInputShortCircuits | SymmetricProtectedConfigurationProvider/SymmetricProtectedConfigurationProvider.cs:141-185 | null or empty input gives "" from both EncryptString and DecryptString, with or without an AES instance |
| Envelope.MissingKeyFails | SymmetricProtectedConfigurationProvider/SymmetricProtectedConfigurationProvider.cs:151-190 | with no AES instance, non-empty input fails with a null reference in both directions, before any Base64 check |
| Envelope.DecryptFailures | SymmetricProtectedConfigurationProvider/SymmetricProtectedConfigurationProvider.cs:188-197 | with a key, non-Base64 text throws FormatException and bad padding throws the cipher stream's CryptographicException |
| Envelope.EnvelopeLength | SymmetricProtectedConfigurationProvider/SymmetricProtectedConfigurationProvider.cs:151-160 | a non-empty plaintext encrypts to a Base64 text of whole AES blocks, at least 24 characters long |
| Envelope.EnvelopeRoundTrip | SymmetricProtectedConfigurationProvider/SymmetricProtectedConfigurationProvider.cs:141-203 | under one key and IV, DecryptString of EncryptString(p) is p, and null comes back as "" |
| Lifecycle.DropAes | SymmetricProtectedConfigurationProvider/SymmetricProtectedConfigurationProvider.cs:240-249 | the fields after `DropAesInstance`: `_aes` null, the rest as before (no contract of its own; stated by DropAesClears) |
| Lifecycle.CreateKeyStep | SymmetricProtectedConfigurationProvider/SymmetricProtectedConfigurationProvider.cs:211-233 | the outcome and fields after `CreateKey`: name, seed, salt and `_disposed` are kept; success leaves a valid 32-byte key and 16-byte IV; the only exception is ArgumentException |
| Lifecycle.DisposeStep | SymmetricProtectedConfigurationProvider/SymmetricProtectedConfigurationProvider.cs:370-390 | the fields after `Dispose`: always disposed, name, seed and salt kept; a first call clears `_aes`, a later one changes nothing |
| Lifecycle.InitializeStep | SymmetricProtectedConfigurationProvider/SymmetricProtectedConfigurationProvider.cs:79-93 | the outcome and fields after `Initialize`: the three entries are stored, `_disposed` is kept, and it throws only ConfigurationErrorsException or CreateKey's ArgumentException |
| Lifecycle.CreateKeyRejectsEmpty | SymmetricProtectedConfigurationProvider/SymmetricProtectedConfigurationProvider.cs:211-218 | a null or empty seed or salt throws ArgumentException before DropAesInstance, leaving every field unchanged |
| Lifecycle.CreateKeyResult | SymmetricProtectedConfigurationProvider/SymmetricProtectedConfigurationProvider.cs:211-233 | with both arguments present: success iff the prepared salt has ≥ 8 bytes; then `_aes` holds a valid key and IV equal to the first 48 PBKDF2 bytes; on failure `_aes` is already null; no other field changes |
| Lifecycle.CreateKeyDeterministic | SymmetricProtectedConfigurationProvider/SymmetricProtectedConfigurationProvider.cs:218-231 | equal (seed, salt) give equal outcomes and equal key and IV, whatever the provider held before |
| Lifecycle.DropAesClears | SymmetricProtectedConfigurationProvider/SymmetricProtectedConfigurationProvider.cs:240-249 | DropAesInstance always leaves `_aes` null and changes no other field |
| Lifecycle.DisposeIdempotent | SymmetricProtectedConfigurationProvider/SymmetricProtectedConfigurationProvider.cs:370-390 | the first Dispose nulls `_aes` and sets `_disposed`; later calls change nothing; disposing twice equals disposing once |
| Lifecycle.RekeyAfterDispose | SymmetricProtectedConfigurationProvider/SymmetricProtectedConfigurationProvider.cs:211-233 | CreateKey on a disposed provider succeeds, keeps `_disposed` set, installs the derived key, and a later Dispose leaves that key in place |
| Lifecycle.InitializeStoresEntries | SymmetricProtectedConfigurationProvider/SymmetricProtectedConfigurationProvider.cs:79-83 | Initialize stores the name, seed and salt whatever happens afterwards |
| Lifecycle.InitializeRejectsBlank | SymmetricProtectedConfigurationProvider/SymmetricProtectedConfigurationProvider.cs:86-89 | a null or blank seed or salt throws ConfigurationErrorsException and leaves `_aes` as it was |
| Lifecycle.InitializeSucceeds | SymmetricProtectedConfigurationProvider/SymmetricProtectedConfigurationProvider.cs:79-93 | Initialize succeeds iff seed and salt are not blank and the prepared salt has ≥ 8 bytes, and then installs the key CreateKey would |
| Lifecycle.ValidationDiffers | SymmetricProtectedConfigurationProvider/SymmetricProtectedConfigurationProvider.cs:86-91 | a blank seed with a valid salt is accepted by CreateKey but rejected by Initialize |
| Lifecycle.InitializeThenRoundTrip | SymmetricProtectedConfigurationProvider/SymmetricProtectedConfigurationProvider.cs:79-93 | after a successful Initialize, decrypting any encrypted string gives it back |
| ConfigurationProvider.SymmetricProtectedConfigurationProvider.constructor | SymmetricProtectedConfigurationProvider/SymmetricProtectedConfigurationProvider.cs:29-35 | a new provider has null name, seed, salt and `_aes`, and is not disposed |
| ConfigurationProvider.SymmetricProtectedConfigurationProvider.Initialize | SymmetricProtectedConfigurationProvider/SymmetricProtectedConfigurationProvider.cs:79-93 | the method's outcome and new fields are those of the Initialize transition |
| ConfigurationProvider.SymmetricProtectedConfigurationProvider.CreateKey | SymmetricProtectedConfigurationProvider/SymmetricProtectedConfigurationProvider.cs:211-233 | the method, reading the key and then the IV from one generator, reaches the outcome and fields of the CreateKey transition |
| ConfigurationProvider.SymmetricProtectedConfigurationProvider.DropAesInstance | SymmetricProtectedConfigurationProvider/SymmetricProtectedConfigurationProvider.cs:240-249 | the method clears `_aes`, changes nothing else, and cannot fail |
| ConfigurationProvider.SymmetricProtectedConfigurationProvider.DisposeCore | SymmetricProtectedConfigurationProvider/SymmetricProtectedConfigurationProvider.cs:370-390 | Dispose(disposing) acts only when not yet disposed, and for either value of `disposing` reaches the Dispose transition |
| ConfigurationProvider.SymmetricProtectedConfigurationProvider.Dispose | SymmetricProtectedConfigurationProvider/SymmetricProtectedConfigurationProvider.cs:399-405 | Dispose() reaches the Dispose transition |

## Left out

- AES, PBKDF2 with HMAC-SHA1, Base64 and UTF-8 are library code. They appear only as the
  functions of a `Primitives` value. The `Lawful` predicate states their laws as a precondition;
  the model does not prove that some implementation satisfies them.
- The stream plumbing (`CryptoStream`, `MemoryStream`, `StreamWriter`, `StreamReader` and their
  `using` blocks) is folded into `writeText`, `aesEncrypt`, `aesDecrypt` and `readText`. This
  includes the UTF-8 preamble the writer emits and the reader strips.
- `Encrypt(XmlNode)` and `Decrypt(XmlNode)` depend on XML parsing and serialisation. `Encrypt`
  wraps the envelope as `<EncryptedData>…</EncryptedData>`; `Decrypt` parses the decrypted text.
  Neither is modelled.
- `Interlocked.Exchange` in `DropAesInstance` is modelled as a plain assignment. Thread safety is
  not modelled.
- `GC.SuppressFinalize`, the commented-out finalizer and what `Dispose(false)` means to the
  garbage collector are not modelled. Both values of `disposing` have the same effect on the fields.
- Disposing the AES object, and the zeroing of its key, are modelled as dropping the key value.
  A disposal error, which the source swallows, has no representation.
- `NameValueCollection` lookup is not modelled, including its case-insensitive keys and a null
  `config`. `Initialize` takes the two values `config["seed"]` and `config["salt"]`.
- Strings are sequences of Unicode scalar values, not UTF-16 code units. A character outside the
  Basic Multilingual Plane counts once here but twice in .NET. For such text the length parity
  seen by `HexToByte` can therefore differ.
- `StartsWith("$")` is culture-sensitive in .NET, which can ignore some zero-width characters.
  It is modelled as an ordinal comparison.
- Exceptions from the runtime itself are not modelled. These include a FIPS-mode
  `AesManaged` constructor and running out of memory. The `AesManaged` object that a failed
  derivation would leak is not modelled either.
- The property that ciphertext made under one key does not decrypt under another depends on
  AES itself, so the abstract cipher cannot state it.
- The `Name`, `Seed` and `Salt` getters are plain field reads.
- `AppConfigEncodingSpike/Program.cs` is not part of this model. It is a console host that uses
  the provider through the configuration system.
