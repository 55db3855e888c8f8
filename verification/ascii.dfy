/**
 Bytes of the lexer's input buffer and the two standard ASCII classifications
 the lexer relies on (`u8::is_ascii_alphabetic` and `u8::is_ascii_digit`).
 */
module Ascii {

  /** One byte of the input buffer (a Rust `u8`). */
  type Byte = b: int | 0 <= b < 256

  /** `u8::is_ascii_alphabetic`: `A`..`Z` or `a`..`z`. */
  predicate IsAsciiAlphabetic(c: Byte) {
    'a' as int <= c <= 'z' as int || 'A' as int <= c <= 'Z' as int
  }

  /** `u8::is_ascii_digit`: `0`..`9`. */
  predicate IsAsciiDigit(c: Byte) {
    '0' as int <= c <= '9' as int
  }

  /** Every byte is below 0x80, so the bytes are valid UTF-8 on their own. */
  predicate IsAscii(s: seq<Byte>) {
    forall i :: 0 <= i < |s| ==> s[i] < 128
  }

  /** The bytes of a string all of whose characters fit in one byte. */
  function FromString(s: string): (b: seq<Byte>)
    requires forall i :: 0 <= i < |s| ==> s[i] as int < 256
    ensures |b| == |s|
    ensures forall i :: 0 <= i < |s| ==> b[i] == s[i] as int
  {
    seq(|s|, i requires 0 <= i < |s| => s[i] as int)
  }
}
