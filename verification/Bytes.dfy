/** Bytes and byte strings. */
module Bytes {
  type Byte = bv8
  type Text = seq<Byte>

  const NUL: Byte := 0x00
  const NEWLINE: Byte := 0x0A
  const BLANK: Byte := 0x20
  const QUOTE: Byte := 0x22
  const PERCENT: Byte := 0x25
  const AMPERSAND: Byte := 0x26
  const PLUS: Byte := 0x2B
  const COMMA: Byte := 0x2C
  const SLASH: Byte := 0x2F
  const COLON: Byte := 0x3A
  const SEMICOLON: Byte := 0x3B
  const EQUALS: Byte := 0x3D
  const LBRACE: Byte := 0x7B
  const RBRACE: Byte := 0x7D

  /** The code of an ASCII character. */
  function Code(c: char): Byte {
    if c as int < 128 then c as int as Byte else 0
  }

  /** The bytes of an ASCII text. */
  function Ascii(s: string): (r: Text)
    ensures |r| == |s|
  {
    seq(|s|, i requires 0 <= i < |s| => Code(s[i]))
  }

  lemma CodesAre()
    ensures NUL == Code('\0') && NEWLINE == Code('\n') && BLANK == Code(' ') && QUOTE == Code('"')
    ensures PERCENT == Code('%') && AMPERSAND == Code('&') && PLUS == Code('+') && COMMA == Code(',')
    ensures SLASH == Code('/') && COLON == Code(':') && SEMICOLON == Code(';') && EQUALS == Code('=')
    ensures LBRACE == Code('{') && RBRACE == Code('}')
  {
  }

  lemma RangesAre()
    ensures Code('A') == 0x41 && Code('Z') == 0x5A && Code('F') == 0x46
    ensures Code('a') == 0x61 && Code('z') == 0x7A && Code('f') == 0x66
    ensures Code('0') == 0x30 && Code('9') == 0x39
    ensures Code('-') == 0x2D && Code('.') == 0x2E && Code('_') == 0x5F && Code('~') == 0x7E && Code('/') == 0x2F
  {
  }

  predicate IsUpper(c: Byte) {
    0x41 <= c <= 0x5A
  }

  predicate IsLower(c: Byte) {
    0x61 <= c <= 0x7A
  }

  predicate IsDigit(c: Byte) {
    0x30 <= c <= 0x39
  }

  predicate EndsWithSlash(s: Text) {
    s != [] && s[|s| - 1] == SLASH
  }
}
