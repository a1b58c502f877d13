/** The provider's hexadecimal codec: `ByteToHex` writes two upper-case digits per
    byte; `HexToByte` strips an optional `$`, `0x` or `&h` prefix and reads the rest
    two characters at a time, ignoring a trailing odd character. */
module HexCodec {
  import opened Common

  // ---------------------------------------------------------------------------
  // Digits

  const UpperDigits: string := "0123456789ABCDEF"
  const LowerDigits: string := "0123456789abcdef"

  /** Upper-cases the ASCII letters a to z and leaves every other character alone. */
  function UpperChar(c: char): char {
    if 'a' <= c <= 'z' then (c as int - 32) as char else c
  }

  function UpperString(s: string): (u: string)
    ensures |u| == |s|
    ensures forall i :: 0 <= i < |s| ==> u[i] == UpperChar(s[i])
  {
    seq(|s|, i requires 0 <= i < |s| => UpperChar(s[i]))
  }

  /** The value of `c` as a base-16 digit, in either case: its position in the
      upper-case or the lower-case digit table. */
  function HexDigitValue(c: char): (r: Option<nat>)
    ensures r.Some? ==> r.value < 16
    ensures r.Some? <==> '0' <= c <= '9' || 'A' <= c <= 'F' || 'a' <= c <= 'f'
    ensures r.Some? ==> UpperDigits[r.value] == c || LowerDigits[r.value] == c
  {
    if '0' <= c <= '9' then Some(c as int - '0' as int)
    else if 'A' <= c <= 'F' then Some(c as int - 'A' as int + 10)
    else if 'a' <= c <= 'f' then Some(c as int - 'a' as int + 10)
    else None
  }

  /** The upper-case digit for `d`, as `Byte.ToString("X2")` writes it. */
  function HexDigitChar(d: nat): (c: char)
    requires d < 16
    ensures HexDigitValue(c) == Some(d)
    ensures '0' <= c <= '9' || 'A' <= c <= 'F'
  {
    if d < 10 then ('0' as int + d) as char else ('A' as int + d - 10) as char
  }

  /** `Convert.ToByte(group, 16)` on a two-character group. The library skips a
      leading `+`, refuses a leading `-`, skips a `0x` marker (leaving no digit
      here), and then demands that every remaining character be a digit. */
  function ParseHexGroup(hi: char, lo: char): (r: Option<byte>)
    ensures r.Some? <==> (hi == '+' || HexDigitValue(hi).Some?) && HexDigitValue(lo).Some?
    ensures HexDigitValue(hi).Some? && HexDigitValue(lo).Some? ==>
              r == Some(16 * HexDigitValue(hi).value + HexDigitValue(lo).value)
    ensures hi == '+' && HexDigitValue(lo).Some? ==> r == Some(HexDigitValue(lo).value)
  {
    if hi == '+' then
      match HexDigitValue(lo)
      case Some(l) => Some(l)
      case None => None
    else
      match (HexDigitValue(hi), HexDigitValue(lo))
      case (Some(h), Some(l)) => Some(16 * h + l)
      case _ => None
  }

  // ---------------------------------------------------------------------------
  // Decoding

  /** Length of the prefix `HexToByte` skips: `$` (ordinal), else `0x` or `&h`
      (ignoring case), checked in that order. */
  function HexPrefixLength(s: string): (n: nat)
    ensures n <= |s|
    ensures n == 1 <==> |s| >= 1 && s[0] == '$'
    ensures n == 2 <==> |s| >= 2 && ((s[0] == '0' && s[1] in "xX") || (s[0] == '&' && s[1] in "hH"))
    ensures n == 0 || n == 1 || n == 2
  {
    if |s| >= 1 && s[0] == '$' then 1
    else if |s| >= 2 && s[0] == '0' && (s[1] == 'x' || s[1] == 'X') then 2
    else if |s| >= 2 && s[0] == '&' && (s[1] == 'h' || s[1] == 'H') then 2
    else 0
  }

  /** Reference decoder for the text after the prefix: one byte per complete
      two-character group, failing on the first group that does not parse. */
  function DecodeGroups(body: string): Result<seq<byte>>
    decreases |body|
  {
    if |body| < 2 then Ok([])
    else
      match ParseHexGroup(body[0], body[1])
      case None => Err(FormatError)
      case Some(b) =>
        match DecodeGroups(body[2..])
        case Ok(rest) => Ok([b] + rest)
        case Err(e) => Err(e)
  }

  /** Group `k` of `body`: the characters at `2k` and `2k + 1`. */
  function GroupAt(body: string, k: nat): Option<byte>
    requires 2 * k + 1 < |body|
  {
    ParseHexGroup(body[2 * k], body[2 * k + 1])
  }

  /** What `HexToByte` returns or throws for `hexString`. */
  function HexDecode(hexString: Option<string>): (r: Result<seq<byte>>)
    ensures r.Err? ==> r.error == FormatError
    ensures r.Ok? && !IsNullOrWhiteSpace(hexString) ==>
              |r.value| == (|hexString.value| - HexPrefixLength(hexString.value)) / 2
  {
    if IsNullOrWhiteSpace(hexString) then Ok([])
    else
      var body := hexString.value[HexPrefixLength(hexString.value)..];
      DecodeGroupsSpec(body);
      DecodeGroups(body)
  }

  /** The recursive decoder succeeds exactly when every complete group parses; it
      then yields `|body| / 2` bytes, byte `k` being group `k`, and it fails only
      with `FormatError`. */
  lemma {:induction false} DecodeGroupsSpec(body: string)
    ensures DecodeGroups(body).Ok? <==>
              forall k :: 0 <= k < |body| / 2 ==> GroupAt(body, k).Some?
    ensures DecodeGroups(body).Ok? ==>
              && |DecodeGroups(body).value| == |body| / 2
              && forall k :: 0 <= k < |body| / 2 ==> GroupAt(body, k) == Some(DecodeGroups(body).value[k])
    ensures DecodeGroups(body).Err? ==> DecodeGroups(body).error == FormatError
    decreases |body|
  {
    if |body| >= 2 {
      var tail := body[2..];
      DecodeGroupsSpec(tail);
      assert |tail| / 2 == |body| / 2 - 1;
      forall k | 0 <= k < |tail| / 2
        ensures GroupAt(body, k + 1) == GroupAt(tail, k)
      {
      }
      if ParseHexGroup(body[0], body[1]).Some? && DecodeGroups(tail).Err? {
        var k :| 0 <= k < |tail| / 2 && GroupAt(tail, k).None?;
        assert GroupAt(body, k + 1).None?;
      }
      if DecodeGroups(body).Ok? {
        var r := DecodeGroups(body).value;
        forall k | 0 <= k < |body| / 2
          ensures GroupAt(body, k) == Some(r[k])
        {
          if k > 0 {
            assert GroupAt(body, k) == GroupAt(tail, k - 1);
          }
        }
      } else if ParseHexGroup(body[0], body[1]).Some? {
        assert DecodeGroups(tail).Err?;
      } else {
        assert GroupAt(body, 0).None?;
      }
    }
  }

  /** Group `i` of a hex string as `HexToByte` reads it:
      `Convert.ToByte(hexString.Substring(i * 2 + startOffset, 2), 16)`. */
  function HexGroup(s: string, i: nat): Option<byte>
    requires HexPrefixLength(s) + 2 * i + 1 < |s|
  {
    GroupAt(s[HexPrefixLength(s)..], i)
  }

  /** For input that is not null or blank, `HexToByte` strips the prefix, succeeds
      exactly when every group after it is two hex digits (or `+` and a digit), and
      then returns `(len - prefix) / 2` bytes, byte `i` being group `i`; otherwise
      it throws `FormatException`. */
  lemma HexDecodeShape(s: string)
    requires !IsNullOrWhiteSpace(Some(s))
    ensures HexDecode(Some(s)).Ok? <==>
              forall i :: 0 <= i < (|s| - HexPrefixLength(s)) / 2 ==> HexGroup(s, i).Some?
    ensures HexDecode(Some(s)).Ok? ==> |HexDecode(Some(s)).value| == (|s| - HexPrefixLength(s)) / 2
    ensures HexDecode(Some(s)).Ok? ==>
              forall i :: 0 <= i < (|s| - HexPrefixLength(s)) / 2 ==> HexGroup(s, i) == Some(HexDecode(Some(s)).value[i])
    ensures HexDecode(Some(s)).Err? ==> HexDecode(Some(s)).error == FormatError
  {
    var p := HexPrefixLength(s);
    var body := s[p..];
    assert HexDecode(Some(s)) == DecodeGroups(body);
    DecodeGroupsSpec(body);
    forall i | 0 <= i < |body| / 2
      ensures GroupAt(body, i) == HexGroup(s, i)
    {
    }
  }

  /** Null, empty or blank input, a bare prefix, and a prefix followed by a single
      character all decode to no bytes. */
  lemma HexDecodeEmpty(hexString: Option<string>)
    requires IsNullOrWhiteSpace(hexString)
             || |hexString.value| - HexPrefixLength(hexString.value) < 2
    ensures HexDecode(hexString) == Ok([])
  {
    if !IsNullOrWhiteSpace(hexString) {
      var s := hexString.value;
      assert |s[HexPrefixLength(s)..]| < 2;
    }
  }

  /** A digit has the same value in either case. */
  lemma HexDigitCaseInsensitive(c: char)
    ensures HexDigitValue(UpperChar(c)) == HexDigitValue(c)
  {
  }

  /** Upper-casing the whole text changes neither the bytes `HexToByte` returns
      nor whether it throws: the prefix, the blank test and every group read the
      same. */
  lemma HexDecodeCaseInsensitive(s: string)
    ensures HexDecode(Some(UpperString(s))) == HexDecode(Some(s))
  {
    var u := UpperString(s);
    forall i | 0 <= i < |s|
      ensures IsWhiteSpace(u[i]) <==> IsWhiteSpace(s[i])
    {
    }
    if !IsNullOrWhiteSpace(Some(s)) {
      var i :| 0 <= i < |s| && !IsWhiteSpace(s[i]);
      assert !IsWhiteSpace(u[i]);
      var p := HexPrefixLength(s);
      assert HexPrefixLength(u) == p;
      assert u[p..] == UpperString(s[p..]);
      DecodeGroupsCaseInsensitive(s[p..]);
    }
  }

  lemma {:induction false} DecodeGroupsCaseInsensitive(body: string)
    ensures DecodeGroups(UpperString(body)) == DecodeGroups(body)
    decreases |body|
  {
    if |body| >= 2 {
      var u := UpperString(body);
      HexDigitCaseInsensitive(body[0]);
      HexDigitCaseInsensitive(body[1]);
      assert ParseHexGroup(u[0], u[1]) == ParseHexGroup(body[0], body[1]);
      assert u[2..] == UpperString(body[2..]);
      DecodeGroupsCaseInsensitive(body[2..]);
    }
  }

  /** One more character after an even number of digits changes nothing: an odd
      final character is dropped, not rejected. */
  lemma OddTrailingCharacterIgnored(s: string, c: char)
    requires !IsNullOrWhiteSpace(Some(s))
    requires (|s| - HexPrefixLength(s)) % 2 == 0
    ensures HexDecode(Some(s + [c])) == HexDecode(Some(s))
  {
    var t := s + [c];
    assert !IsNullOrWhiteSpace(Some(t)) by {
      var i :| 0 <= i < |s| && !IsWhiteSpace(s[i]);
      assert t[i] == s[i];
    }
    var p := HexPrefixLength(s);
    assert HexPrefixLength(t) == p;
    assert t[p..] == s[p..] + [c];
    DecodeGroupsDropsLast(s[p..], c);
  }

  lemma {:induction false} DecodeGroupsDropsLast(body: string, c: char)
    requires |body| % 2 == 0
    ensures DecodeGroups(body + [c]) == DecodeGroups(body)
    decreases |body|
  {
    if |body| >= 2 {
      assert (body + [c])[2..] == body[2..] + [c];
      DecodeGroupsDropsLast(body[2..], c);
    }
  }

  /** The three prefixes and lower case all read the same two bytes. */
  lemma HexPrefixExamples()
    ensures HexDecode(Some("$0A0B")) == Ok([0x0A, 0x0B])
    ensures HexDecode(Some("0x0A0B")) == Ok([0x0A, 0x0B])
    ensures HexDecode(Some("&H0a0b")) == Ok([0x0A, 0x0B])
    ensures HexDecode(Some("0a0b")) == Ok([0x0A, 0x0B])
  {
    DecodesTo("$0A0B", [0x0A, 0x0B]);
    DecodesTo("0x0A0B", [0x0A, 0x0B]);
    DecodesTo("&H0a0b", [0x0A, 0x0B]);
    DecodesTo("0a0b", [0x0A, 0x0B]);
  }

  /** Edge cases: a dropped odd digit, a bare prefix, a `+` sign that the library
      accepts, and a leading blank that fails. */
  lemma HexEdgeExamples()
    ensures HexDecode(Some("0x0102")) == Ok([1, 2])
    ensures HexDecode(Some("ABC")) == Ok([0xAB])
    ensures HexDecode(Some("0x")) == Ok([])
    ensures HexDecode(Some("+A")) == Ok([0x0A])
    ensures HexDecode(Some(" AB")) == Err(FormatError)
  {
    DecodesTo("0x0102", [1, 2]);
    DecodesTo("ABC", [0xAB]);
    FirstCharNotBlank("0x");
    DecodesTo("+A", [0x0A]);
    var blank := " AB";
    assert !IsWhiteSpace(blank[1]);
    HexDecodeShape(blank);
    assert HexGroup(blank, 0).None?;
  }

  /** `s` decodes to `bytes` when it has one good group per byte. */
  lemma DecodesTo(s: string, bytes: seq<byte>)
    requires |s| > 0 && !IsWhiteSpace(s[0])
    requires (|s| - HexPrefixLength(s)) / 2 == |bytes|
    requires forall i :: 0 <= i < |bytes| ==> HexGroup(s, i) == Some(bytes[i])
    ensures HexDecode(Some(s)) == Ok(bytes)
  {
    FirstCharNotBlank(s);
    HexDecodeShape(s);
    assert HexDecode(Some(s)).Ok?;
    assert HexDecode(Some(s)).value == bytes;
  }

  lemma FirstCharNotBlank(s: string)
    requires |s| > 0 && !IsWhiteSpace(s[0])
    ensures !IsNullOrWhiteSpace(Some(s))
  {
  }

  /** `HexToByte`: allocates `(len - prefix) / 2` bytes and fills them from
      consecutive two-character groups, throwing on the first bad group. */
  method HexToByte(hexString: Option<string>) returns (r: Result<array<byte>>)
    ensures match r
            case Ok(bytes) => HexDecode(hexString) == Ok(bytes[..])
            case Err(e) => HexDecode(hexString) == Err(e)
  {
    if IsNullOrWhiteSpace(hexString) {
      var empty := new byte[0];
      assert empty[..] == [];
      return Ok(empty);
    }
    var s := hexString.value;
    var startOffset := HexPrefixLength(s);
    HexDecodeShape(s);
    var retval := new byte[(|s| - startOffset) / 2];
    for i := 0 to retval.Length
      invariant forall k :: 0 <= k < i ==> HexGroup(s, k) == Some(retval[k])
    {
      var group := ParseHexGroup(s[i * 2 + startOffset], s[i * 2 + startOffset + 1]);
      assert group == HexGroup(s, i);
      if group.None? {
        return Err(FormatError);
      }
      retval[i] := group.value;
    }
    assert retval[..] == HexDecode(hexString).value;
    return Ok(retval);
  }

  // ---------------------------------------------------------------------------
  // Encoding

  /** The two characters `Byte.ToString("X2")` writes for `b`. */
  function ByteHex(b: byte): string {
    [HexDigitChar(b / 16), HexDigitChar(b % 16)]
  }

  /** Reference encoder: the bytes' two-digit forms, concatenated. */
  function HexEncode(bytes: seq<byte>): (h: string)
    ensures |h| == 2 * |bytes|
  {
    if bytes == [] then "" else ByteHex(bytes[0]) + HexEncode(bytes[1..])
  }

  lemma {:induction false} HexEncodeAppend(bytes: seq<byte>, b: byte)
    ensures HexEncode(bytes + [b]) == HexEncode(bytes) + ByteHex(b)
  {
    if bytes != [] {
      assert (bytes + [b])[1..] == bytes[1..] + [b];
      HexEncodeAppend(bytes[1..], b);
    }
  }

  /** `ByteToHex` writes exactly two upper-case hex digits per byte, high nibble
      first, so its output is never blank and never starts with a prefix. */
  lemma {:induction false} HexEncodeShape(bytes: seq<byte>)
    ensures |HexEncode(bytes)| == 2 * |bytes|
    ensures forall i :: 0 <= i < |bytes| ==>
              && HexEncode(bytes)[2 * i] == HexDigitChar(bytes[i] / 16)
              && HexEncode(bytes)[2 * i + 1] == HexDigitChar(bytes[i] % 16)
    ensures forall j :: 0 <= j < |HexEncode(bytes)| ==>
              '0' <= HexEncode(bytes)[j] <= '9' || 'A' <= HexEncode(bytes)[j] <= 'F'
  {
    if bytes != [] {
      HexEncodeShape(bytes[1..]);
      var h := HexEncode(bytes);
      assert h == ByteHex(bytes[0]) + HexEncode(bytes[1..]);
      forall i | 1 <= i < |bytes|
        ensures h[2 * i] == HexDigitChar(bytes[i] / 16) && h[2 * i + 1] == HexDigitChar(bytes[i] % 16)
      {
        assert h[2 * i] == HexEncode(bytes[1..])[2 * (i - 1)];
        assert h[2 * i + 1] == HexEncode(bytes[1..])[2 * (i - 1) + 1];
      }
    }
  }

  /** `ByteToHex`: null or empty gives `""`; otherwise each byte is appended as
      two upper-case digits. */
  method ByteToHex(byteArray: array?<byte>) returns (hex: string)
    ensures hex == HexEncode(if byteArray == null then [] else byteArray[..])
  {
    if byteArray == null || byteArray.Length == 0 {
      return "";
    }
    var sb := "";
    for i := 0 to byteArray.Length
      invariant sb == HexEncode(byteArray[..i])
    {
      assert byteArray[..i + 1] == byteArray[..i] + [byteArray[i]];
      HexEncodeAppend(byteArray[..i], byteArray[i]);
      sb := sb + ByteHex(byteArray[i]);
    }
    assert byteArray[..byteArray.Length] == byteArray[..];
    return sb;
  }

  // ---------------------------------------------------------------------------
  // Round trip

  lemma {:induction false} DecodeGroupsOfEncoding(bytes: seq<byte>)
    ensures DecodeGroups(HexEncode(bytes)) == Ok(bytes)
  {
    if bytes != [] {
      var h := HexEncode(bytes);
      var b := bytes[0];
      assert h == ByteHex(b) + HexEncode(bytes[1..]);
      assert h[2..] == HexEncode(bytes[1..]);
      assert ParseHexGroup(h[0], h[1]) == Some(b);
      DecodeGroupsOfEncoding(bytes[1..]);
      assert [b] + bytes[1..] == bytes;
    }
  }

  /** Reading back what `ByteToHex` wrote gives the original bytes: its output is
      never blank, has no prefix and has even length. */
  lemma HexRoundTrip(bytes: seq<byte>)
    ensures HexDecode(Some(HexEncode(bytes))) == Ok(bytes)
  {
    var h := HexEncode(bytes);
    HexEncodeShape(bytes);
    DecodeGroupsOfEncoding(bytes);
    if bytes != [] {
      assert !IsWhiteSpace(h[0]);
      assert HexPrefixLength(h) == 0;
      assert h[0..] == h;
    }
  }
}
