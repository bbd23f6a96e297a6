/** The character classes of ctype.c. */
module CType {
  import opened Machine

  predicate IsPunct(c: byte) {
    33 <= c <= 47 || 58 <= c <= 64 || 91 <= c <= 96 || 123 <= c <= 126 || 161 <= c <= 191 || c == 215 || c == 247
  }

  predicate IsDigit(c: byte) { 48 <= c <= 57 }

  predicate IsUpper(c: byte) { 65 <= c <= 90 || 192 <= c <= 214 || 216 <= c <= 222 }

  predicate IsLower(c: byte) { 97 <= c <= 122 || 223 <= c <= 246 || 248 <= c <= 255 }

  /** Blanks that take up space. */
  predicate IsSpacing(c: byte) { c == 32 || c == 160 }

  predicate IsSpace(c: byte) { 9 <= c <= 13 || IsSpacing(c) }

  predicate IsPrint(c: byte) { IsPunct(c) || IsDigit(c) || IsUpper(c) || IsLower(c) || IsSpacing(c) }
}
