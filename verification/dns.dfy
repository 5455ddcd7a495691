/** Fully-qualified domain names in the sense of the DNS library's `Fqdn`:
    a name is fully qualified when it ends with the root label's dot. */
module Dns {

  predicate IsFqdn(s: string) {
    |s| > 0 && s[|s| - 1] == '.'
  }

  /** The shortest fully-qualified name that extends `s`: `s` itself when it
      already ends with a dot, otherwise `s` with one dot appended. */
  function Fqdn(s: string): (r: string)
    ensures IsFqdn(r)
    ensures s <= r && |r| <= |s| + 1
    ensures IsFqdn(s) ==> r == s
  {
    if IsFqdn(s) then s else s + "."
  }

  /** Canonicalising twice is the same as canonicalising once. */
  lemma FqdnIdempotent(s: string)
    ensures Fqdn(Fqdn(s)) == Fqdn(s)
  {
  }
}
