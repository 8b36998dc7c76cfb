/** ASCII text as the bridge's services handle it: case, prefixes and zero filling. */
module Text {

  function LowerChar(c: char): char {
    if 'A' <= c <= 'Z' then c - 'A' + 'a' else c
  }

  function Lower(s: string): (r: string)
    ensures |r| == |s|
  {
    seq(|s|, i requires 0 <= i < |s| => LowerChar(s[i]))
  }

  function StripPrefix(s: string, prefix: string): string {
    if prefix <= s then s[|prefix|..] else s
  }

  /** The same for a prefix in either case. */
  function StripAnyCase(s: string, prefix: string): string {
    if |prefix| <= |s| && Lower(s[..|prefix|]) == Lower(prefix) then s[|prefix|..] else s
  }

  function Fill(n: nat): (r: string)
    ensures |r| == n
  {
    seq(n, _ => '0')
  }
}
