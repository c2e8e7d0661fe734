/** String helpers shared by the handlers and the client services: ASCII case folding,
    string prefixes (`String.prototype.startsWith`), the `..` substring and decimal numerals. */
module Text {

  /** `toLowerCase` restricted to ASCII letters. */
  function LowerChar(c: char): char
  {
    if 'A' <= c <= 'Z' then (c as int + 32) as char else c
  }

  function Lower(s: string): (r: string)
    ensures |r| == |s|
  {
    seq(|s|, i requires 0 <= i < |s| => LowerChar(s[i]))
  }

  /** `s.startsWith(prefix)` */
  predicate StartsWith(s: string, prefix: string)
  {
    prefix <= s
  }

  /** `s` contains the two-character substring `..` */
  predicate HasDotDot(s: string)
  {
    exists i :: 0 <= i && i + 1 < |s| && s[i] == '.' && s[i + 1] == '.'
  }

  /** The decimal numeral of `n`, as `${n}` renders a non-negative integer. */
  function Decimal(n: nat): (r: string)
    ensures |r| >= 1
    ensures forall i :: 0 <= i < |r| ==> '0' <= r[i] <= '9'
  {
    if n < 10 then [('0' as int + n) as char]
    else Decimal(n / 10) + [('0' as int + n % 10) as char]
  }
}
