/** NUL-terminated strings. */
module CStrings {

  /** The characters before the terminator. */
  type CString = s: seq<char> | '\0' !in s

  /** Character `i` of a string, its terminator included. */
  function At(s: CString, i: nat): char
    requires i <= |s|
  {
    if i < |s| then s[i] else '\0'
  }
}
