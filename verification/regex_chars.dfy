/**
 * Character classes of ECMAScript regular expressions (section 22.2 of ECMA-262),
 * for patterns compiled without the `u` and `i` flags, as used by the tab-label pattern.
 */
module RegexChars {

  /** U+2194 LEFT RIGHT ARROW, the separator VS Code puts between the two sides of a diff label. */
  const Arrow: char := '\U{2194}'

  /** `\w`: ASCII letters, digits and the underscore. */
  predicate IsWordChar(c: char) {
    || ('a' <= c <= 'z')
    || ('A' <= c <= 'Z')
    || ('0' <= c <= '9')
    || c == '_'
  }

  /** The line terminators that `.` refuses: LF, CR, LINE SEPARATOR, PARAGRAPH SEPARATOR. */
  predicate IsLineTerminator(c: char) {
    c == '\n' || c == '\r' || c == '\U{2028}' || c == '\U{2029}'
  }

  /** `\s`: the ECMAScript WhiteSpace and LineTerminator code points. */
  predicate IsSpace(c: char) {
    || c == '\t' || c == '\U{000B}' || c == '\U{000C}' || c == ' '
    || c == '\U{00A0}' || c == '\U{FEFF}'
    || c == '\U{1680}' || ('\U{2000}' <= c <= '\U{200A}')
    || c == '\U{202F}' || c == '\U{205F}' || c == '\U{3000}'
    || IsLineTerminator(c)
  }
}
