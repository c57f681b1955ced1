/** Character classes and case maps that the conversions rely on.

    `\p{Lu}`, `\p{Ll}` and `\d` are restricted to ASCII, and the case maps are those
    of the invariant culture on ASCII; `\s` is .NET's full whitespace class. */
module Chars {

  /** `\p{Lu}`: an uppercase letter. */
  predicate IsUpper(c: char) {
    'A' <= c <= 'Z'
  }

  /** `\p{Ll}`: a lowercase letter. */
  predicate IsLower(c: char) {
    'a' <= c <= 'z'
  }

  /** `\d`: a decimal digit. */
  predicate IsDigit(c: char) {
    '0' <= c <= '9'
  }

  /** `[a-zA-Z]` */
  predicate IsAsciiLetter(c: char) {
    IsLower(c) || IsUpper(c)
  }

  /** `\s`, which .NET defines as `[\f\n\r\t\v\x85\p{Z}]`: the C0 controls tab to carriage
      return, NEXT LINE, and every space, line and paragraph separator. */
  predicate IsSpace(c: char) {
    || '\t' <= c <= '\r'
    || c == ' '
    || c == '\U{0085}'
    || c == '\U{00A0}'
    || c == '\U{1680}'
    || '\U{2000}' <= c <= '\U{200A}'
    || c == '\U{2028}'
    || c == '\U{2029}'
    || c == '\U{202F}'
    || c == '\U{205F}'
    || c == '\U{3000}'
  }

  /** `char.ToLower`: maps an uppercase letter to its lowercase partner, anything else to itself. */
  function ToLower(c: char): (r: char)
    ensures !IsUpper(r)
    ensures IsUpper(c) ==> IsLower(r)
    ensures !IsUpper(c) ==> r == c
    ensures IsSpace(r) == IsSpace(c)
  {
    if IsUpper(c) then (c as int - 'A' as int + 'a' as int) as char else c
  }

  /** `char.ToUpper`: maps a lowercase letter to its uppercase partner, anything else to itself. */
  function ToUpper(c: char): (r: char)
    ensures !IsLower(r)
    ensures IsLower(c) ==> IsUpper(r)
    ensures !IsLower(c) ==> r == c
  {
    if IsLower(c) then (c as int - 'a' as int + 'A' as int) as char else c
  }

  /** Lowercasing a character that uppercasing produced gives back that character,
      unless it started out uppercase. */
  lemma LowerUndoesUpper(c: char)
    requires !IsUpper(c)
    ensures ToLower(ToUpper(c)) == c
  {
  }
}
