/** Character classes and C strings (drivers/Mach3/tinyxml2.h:551-610). A byte of the C++ buffer is a `char` below
    256, and a C string is a `string`. */
module XmlUtil {

  datatype Option<+T> = None | Some(value: T)

  const NUL := '\0'
  const CR := '\r'
  const LF := '\n'

  predicate NoNul(s: string) {
    forall i :: 0 <= i < |s| ==> s[i] != NUL
  }

  predicate NoCR(s: string) {
    forall i :: 0 <= i < |s| ==> s[i] != CR
  }

  /** `isspace` on the bytes below 0x80; no byte from 0x80 up counts as white space. */
  predicate IsWhiteSpace(c: char) {
    c == ' ' || 9 <= c as int <= 13
  }

  predicate IsAlpha(c: char) {
    'a' <= c <= 'z' || 'A' <= c <= 'Z'
  }

  predicate IsDigit(c: char) {
    '0' <= c <= '9'
  }

  predicate IsNameStartChar(c: char) {
    c as int >= 128 || IsAlpha(c) || c == ':' || c == '_'
  }

  predicate IsNameChar(c: char) {
    IsNameStartChar(c) || IsDigit(c) || c == '.' || c == '-'
  }

  /** What a `char*` into `s` denotes: everything before the first NUL. */
  function CString(s: string): (r: string)
    ensures NoNul(r) && r <= s
    ensures |r| < |s| ==> s[|r|] == NUL
    ensures NoNul(s) ==> r == s
  {
    if s == [] || s[0] == NUL then [] else [s[0]] + CString(s[1..])
  }

  function IndexOf(s: string, c: char): (r: Option<nat>)
    ensures r.Some? ==> r.value < |s| && s[r.value] == c && forall i :: 0 <= i < r.value ==> s[i] != c
    ensures r.None? ==> forall i :: 0 <= i < |s| ==> s[i] != c
  {
    if s == [] then None
    else if s[0] == c then Some(0)
    else match IndexOf(s[1..], c) case None => None case Some(k) => Some(k + 1)
  }
}
