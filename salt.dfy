/** `PrepareSalt`: turns the configured salt text into bytes, trying hex, then
    Base64, then falling back to the text's UTF-8 bytes. It never throws. */
module Salt {
  import opened Common
  import opened HexCodec
  import opened Library

  /** The salt bytes for `salt`: none for null or empty text; else the first of
      hex, Base64 and UTF-8 that accepts it. */
  function PrepareSalt(p: Primitives, salt: Option<string>): (r: seq<byte>)
    ensures HexDecode(salt).Ok? ==> r == HexDecode(salt).value
  {
    if IsNullOrEmpty(salt) then []
    else
      match HexDecode(salt)
      case Ok(bytes) => bytes
      case Err(_) =>
        match p.base64Decode(salt.value)
        case Some(bytes) => bytes
        case None => p.utf8GetBytes(salt.value)
  }

  /** The fallback order, stated against the three decoders: hex wins whenever
      it succeeds, Base64 is used only when hex fails, UTF-8 only when both fail. */
  lemma PrepareSaltOrder(p: Primitives, salt: string)
    requires salt != ""
    ensures HexDecode(Some(salt)).Ok? ==> PrepareSalt(p, Some(salt)) == HexDecode(Some(salt)).value
    ensures HexDecode(Some(salt)).Err? && p.base64Decode(salt).Some? ==>
              PrepareSalt(p, Some(salt)) == p.base64Decode(salt).value
    ensures HexDecode(Some(salt)).Err? && p.base64Decode(salt).None? ==>
              PrepareSalt(p, Some(salt)) == p.utf8GetBytes(salt)
  {
  }

  /** Null, empty and blank salts all give no bytes (a blank salt is read as
      empty hex, whatever Base64 would make of it). */
  lemma PrepareSaltEmpty(p: Primitives, salt: Option<string>)
    requires IsNullOrWhiteSpace(salt)
    ensures PrepareSalt(p, salt) == []
  {
  }

  /** "AAAA" is valid Base64 too, but it is read as the hex bytes AA AA. */
  lemma PrepareSaltPrefersHex(p: Primitives)
    ensures PrepareSalt(p, Some("AAAA")) == [0xAA, 0xAA]
    ensures PrepareSalt(p, Some("0x0102")) == [1, 2]
  {
    DecodesTo("AAAA", [0xAA, 0xAA]);
    HexEdgeExamples();
  }

  /** Any salt written by `ByteToHex` yields exactly those bytes. */
  lemma PrepareSaltOfHexText(p: Primitives, bytes: seq<byte>)
    ensures PrepareSalt(p, Some(HexEncode(bytes))) == bytes
  {
    HexRoundTrip(bytes);
  }

  /** A Base64 salt that is not also readable as hex yields its decoded bytes. */
  lemma PrepareSaltOfBase64Text(p: Primitives, bytes: seq<byte>)
    requires Lawful(p)
    requires HexDecode(Some(p.base64Encode(bytes))).Err?
    ensures PrepareSalt(p, Some(p.base64Encode(bytes))) == bytes
  {
    assert p.base64Decode(p.base64Encode(bytes)) == Some(bytes);
  }
}
