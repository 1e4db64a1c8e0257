/**
 Character classes as Python's `re` module and `str` methods see them,
 restricted to ASCII: `\s` and `str.isspace`, `\w`, `\d`, and the case
 mapping of `str.lower`.
 */
module Chars {

  /** `\s` / `str.isspace`: space, tab through carriage return, and the
      information separators 0x1C-0x1F, which Python also counts as space. */
  predicate IsSpace(c: char) {
    c == ' ' || 9 <= c as int <= 13 || 28 <= c as int <= 31
  }

  predicate IsDigit(c: char) {
    '0' <= c <= '9'
  }

  predicate IsUpper(c: char) {
    'A' <= c <= 'Z'
  }

  predicate IsLower(c: char) {
    'a' <= c <= 'z'
  }

  /** `\w`: letters, digits and the underscore. */
  predicate IsWord(c: char) {
    IsUpper(c) || IsLower(c) || IsDigit(c) || c == '_'
  }

  /** The classes a greedy run `\s*`, `\S+`, `\w+` or `\d+` is made of. */
  datatype Class = Space | NotSpace | Word | Digit

  predicate In(cls: Class, c: char) {
    match cls
    case Space => IsSpace(c)
    case NotSpace => !IsSpace(c)
    case Word => IsWord(c)
    case Digit => IsDigit(c)
  }

  /** `str.lower` on one character. */
  function ToLower(c: char): (r: char)
    ensures !IsUpper(r)
    ensures IsUpper(c) || r == c
    ensures IsWord(r) == IsWord(c) && IsSpace(r) == IsSpace(c)
  {
    if IsUpper(c) then (c as int + 32) as char else c
  }
}
