/** Lowercasing of strings, as `str::to_lowercase` does it for ASCII letters. */
module Text {

  predicate IsAsciiUpper(c: char) {
    'A' <= c <= 'Z'
  }

  /** Lowercases one ASCII letter; every other character is returned unchanged. */
  function AsciiLower(c: char): char {
    if IsAsciiUpper(c) then (c as int + 32) as char else c
  }

  /** `s.to_lowercase()`, character by character. */
  function ToLower(s: string): (r: string)
    ensures |r| == |s|
    ensures forall i :: 0 <= i < |s| ==> r[i] == AsciiLower(s[i])
    ensures forall i :: 0 <= i < |r| ==> !IsAsciiUpper(r[i])
  {
    if s == [] then [] else [AsciiLower(s[0])] + ToLower(s[1..])
  }
}
