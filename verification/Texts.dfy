/** The few facts about Go strings that the guards ask for. */
module Texts {

  /** `len` of a string: the number of bytes of its UTF-8 encoding. */
  function ByteLength(s: string): nat {
    if s == "" then 0 else CharLength(s[0]) + ByteLength(s[1..])
  }

  function CharLength(c: char): nat {
    if c < '\U{80}' then 1 else if c < '\U{800}' then 2 else if c < '\U{10000}' then 3 else 4
  }

  /** `unicode.IsSpace`. */
  predicate IsSpace(c: char) {
    || '\t' <= c <= '\r' || c == ' ' || c == '\U{85}' || c == '\U{A0}' || c == '\U{1680}'
    || '\U{2000}' <= c <= '\U{200A}' || c in {'\U{2028}', '\U{2029}', '\U{202F}', '\U{205F}', '\U{3000}'}
  }

  /** `unicode.IsControl`. */
  predicate IsControl(c: char) {
    c < ' ' || '\U{7F}' <= c <= '\U{9F}'
  }

  /** `strings.TrimSpace(s) == ""`. */
  predicate Blank(s: string) {
    forall i | 0 <= i < |s| :: IsSpace(s[i])
  }

  /** `strings.TrimSpace(s) == s`. */
  predicate Trimmed(s: string) {
    s != "" ==> !IsSpace(s[0]) && !IsSpace(s[|s| - 1])
  }

  /** `discoveryText`. */
  predicate DiscoveryText(s: string, maximum: nat) {
    && s != "" && ByteLength(s) <= maximum && Trimmed(s)
    && forall i | 0 <= i < |s| :: !IsControl(s[i])
  }

  predicate Distinct<T(==)>(s: seq<T>) {
    forall i, j | 0 <= i < j < |s| :: s[i] != s[j]
  }
}
