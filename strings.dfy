/** Go's `strings.HasSuffix`, the only string operation the rule logic uses. */
module Strings {

  /**
   * `s` ends with `suf`: `s` is some prefix followed by `suf`. As in Go, the
   * empty suffix matches every string. The body is the test Go performs: the
   * last `|suf|` characters of `s` are `suf`.
   */
  predicate HasSuffix(s: string, suf: string)
    ensures HasSuffix(s, suf) <==> exists p :: s == p + suf
  {
    if |suf| <= |s| && s[|s| - |suf|..] == suf then
      assert s == s[..|s| - |suf|] + suf;
      true
    else
      false
  }

  /** Any prefix followed by `suf` ends with `suf`: `main.go` ends with `.go`. */
  lemma HasSuffixOfConcat(p: string, suf: string)
    ensures HasSuffix(p + suf, suf)
  {
  }
}
