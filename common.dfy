/** Types shared by the whole provider: bytes, nullable values, the exceptions
    the provider raises, and the .NET string tests it relies on. */
module Common {

  /** A .NET `byte`. */
  type byte = x: int | 0 <= x < 256

  /** A value that may be `null` in the source (strings, arrays, the AES instance). */
  datatype Option<T> = None | Some(value: T) {
    function GetOr(default: T): T {
      match this
      case Some(v) => v
      case None => default
    }
  }

  /** The exceptions the provider can raise, named after the .NET types. */
  datatype Error =
    | ArgumentError(message: string)       // System.ArgumentException
    | ConfigurationError(message: string)  // System.Configuration.ConfigurationErrorsException
    | FormatError                          // System.FormatException
    | CryptographicError                   // CryptographicException raised by the cipher stream
    | NullReferenceError                   // NullReferenceException: no AES instance is set

  /** A value, or the exception thrown instead of returning it. */
  datatype Result<T> = Ok(value: T) | Err(error: Error)

  /** How a `void` operation ended: normally, or by throwing. */
  datatype Outcome = Completed | Threw(error: Error)

  /** `Char.IsWhiteSpace`: the Unicode space, line and paragraph separators,
      U+0009 to U+000D and U+0085. */
  predicate IsWhiteSpace(c: char) {
    || c == ' '
    || '\t' <= c <= '\r'
    || c == '\U{85}' || c == '\U{A0}' || c == '\U{1680}'
    || '\U{2000}' <= c <= '\U{200A}'
    || c == '\U{2028}' || c == '\U{2029}' || c == '\U{202F}' || c == '\U{205F}'
    || c == '\U{3000}'
  }

  /** `string.IsNullOrEmpty`. */
  predicate IsNullOrEmpty(s: Option<string>) {
    s.None? || s.value == []
  }

  /** `string.IsNullOrWhiteSpace`: null, empty, or nothing but white space. */
  predicate IsNullOrWhiteSpace(s: Option<string>) {
    s.None? || forall i :: 0 <= i < |s.value| ==> IsWhiteSpace(s.value[i])
  }
}
