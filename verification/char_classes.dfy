/** Character classification as Python's `str` methods see it. */
module CharClasses {

  /** The two Unicode predicates the sanitizer and the splitter consult:
      `isAlnum` is `str.isalnum` on one character and `isSpace` is
      `str.isspace`, which is also the separator test of `str.split()` with
      no argument. The Unicode database is not part of the model, so both are
      parameters; `PythonOnAscii` pins them down on the ASCII range. */
  datatype CharClass = CharClass(isAlnum: char -> bool, isSpace: char -> bool)

  predicate IsAsciiAlnum(c: char) {
    'a' <= c <= 'z' || 'A' <= c <= 'Z' || '0' <= c <= '9'
  }

  /** Python counts space, tab, line feed, vertical tab, form feed, carriage
      return and the four information separators 0x1C-0x1F as whitespace. */
  predicate IsAsciiSpace(c: char) {
    c == ' ' || '\t' <= c <= '\r' || '\U{1C}' <= c <= '\U{1F}'
  }

  /** The classifier agrees with CPython on every ASCII character. */
  ghost predicate PythonOnAscii(cls: CharClass) {
    && (forall c: char :: c < '\U{80}' ==> cls.isAlnum(c) == IsAsciiAlnum(c))
    && (forall c: char :: c < '\U{80}' ==> cls.isSpace(c) == IsAsciiSpace(c))
  }
}
