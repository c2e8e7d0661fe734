/** Base64 as the browser's `atob` reads it: the encoding of section 4 of RFC 4648 (the
    standard alphabet, `=` padding) and the forgiving decoder of the WHATWG HTML standard,
    which ignores ASCII whitespace, accepts missing padding and does not check the unused
    bits of the last group. */
module Base64 {
  import opened Wrappers
  import opened Octets

  /** A six-bit value. */
  type Sextet = v: int | 0 <= v < 64

  /** The character of the standard alphabet for `v`. */
  function CharOf(v: Sextet): (c: char)
    ensures InAlphabet(c)
  {
    if v < 26 then ('A' as int + v) as char
    else if v < 52 then ('a' as int + (v - 26)) as char
    else if v < 62 then ('0' as int + (v - 52)) as char
    else if v == 62 then '+'
    else '/'
  }

  predicate InAlphabet(c: char)
  {
    'A' <= c <= 'Z' || 'a' <= c <= 'z' || '0' <= c <= '9' || c == '+' || c == '/'
  }

  /** The value of an alphabet character. */
  function ValueOf(c: char): (v: Sextet)
    requires InAlphabet(c)
    ensures CharOf(v) == c
  {
    if 'A' <= c <= 'Z' then c as int - 'A' as int
    else if 'a' <= c <= 'z' then c as int - 'a' as int + 26
    else if '0' <= c <= '9' then c as int - '0' as int + 52
    else if c == '+' then 62
    else 63
  }

  lemma ValueOfCharOf(v: Sextet)
    ensures ValueOf(CharOf(v)) == v
  {
  }

  // ---------------------------------------------------------------------------
  // Encoding

  /** The four characters of a full group of three bytes. */
  function Quad(b0: byte, b1: byte, b2: byte): (s: string)
    ensures |s| == 4 && forall i :: 0 <= i < 4 ==> InAlphabet(s[i])
  {
    [CharOf(b0 / 4), CharOf(b0 % 4 * 16 + b1 / 16), CharOf(b1 % 16 * 4 + b2 / 64), CharOf(b2 % 64)]
  }

  /** The characters of the encoding before padding: four per three bytes, and two or three
      for a final group of one or two bytes. */
  function Digits(b: seq<byte>): (s: string)
    ensures |s| % 4 == (if |b| % 3 == 0 then 0 else |b| % 3 + 1)
    ensures |b| > 0 ==> |s| > 0
    ensures forall i :: 0 <= i < |s| ==> InAlphabet(s[i])
  {
    if |b| == 0 then []
    else if |b| == 1 then Quad(b[0], 0, 0)[..2]
    else if |b| == 2 then Quad(b[0], b[1], 0)[..3]
    else Quad(b[0], b[1], b[2]) + Digits(b[3..])
  }

  function Padding(b: seq<byte>): string
  {
    if |b| % 3 == 1 then "==" else if |b| % 3 == 2 then "=" else ""
  }

  /** The base64 encoding of `b` (section 4 of RFC 4648). */
  function Encode(b: seq<byte>): (s: string)
    ensures |s| % 4 == 0
  {
    Digits(b) + Padding(b)
  }

  // ---------------------------------------------------------------------------
  // Decoding

  predicate AsciiWhitespace(c: char)
  {
    c == '\t' || c == '\n' || c == '\U{C}' || c == '\r' || c == ' '
  }

  function StripWhitespace(s: string): (r: string)
    ensures forall i :: 0 <= i < |r| ==> !AsciiWhitespace(r[i])
    ensures |r| <= |s|
  {
    if s == [] then []
    else if AsciiWhitespace(s[0]) then StripWhitespace(s[1..])
    else [s[0]] + StripWhitespace(s[1..])
  }

  /** When the length is a multiple of four, one or two trailing `=` are dropped. */
  function DropPadding(s: string): (r: string)
    ensures r <= s && |s| - 2 <= |r|
  {
    if |s| % 4 != 0 then s
    else if |s| >= 2 && s[|s| - 2..] == "==" then s[..|s| - 2]
    else if |s| >= 1 && s[|s| - 1] == '=' then s[..|s| - 1]
    else s
  }

  /** The three bytes a group of sextets `v0 v1 v2 v3` carries. */
  function First(v0: Sextet, v1: Sextet): byte { v0 * 4 + v1 / 16 }
  function Second(v1: Sextet, v2: Sextet): byte { v1 % 16 * 16 + v2 / 4 }
  function Third(v2: Sextet, v3: Sextet): byte { v2 % 4 * 64 + v3 }

  /** The bytes of groups of alphabet characters; a final group of two characters gives one
      byte and of three gives two, the leftover bits being discarded. */
  function Bytes(s: string): (b: seq<byte>)
    requires |s| % 4 != 1
    requires forall i :: 0 <= i < |s| ==> InAlphabet(s[i])
  {
    if |s| == 0 then []
    else
      var first := First(ValueOf(s[0]), ValueOf(s[1]));
      if |s| == 2 then [first]
      else
        var second := Second(ValueOf(s[1]), ValueOf(s[2]));
        if |s| == 3 then [first, second]
        else [first, second, Third(ValueOf(s[2]), ValueOf(s[3]))] + Bytes(s[4..])
  }

  /** `atob(s)` as bytes, or None where it throws `InvalidCharacterError`. */
  function Atob(s: string): (r: Option<seq<byte>>)
    ensures |StripWhitespace(s)| % 4 == 1 ==> r == None
    ensures r.Some? ==> forall i :: 0 <= i < |DropPadding(StripWhitespace(s))| ==>
                          InAlphabet(DropPadding(StripWhitespace(s))[i])
  {
    var t := DropPadding(StripWhitespace(s));
    if |t| % 4 == 1 then None
    else if exists i :: 0 <= i < |t| && !InAlphabet(t[i]) then None
    else Some(Bytes(t))
  }

  /** The string `atob` returns: one character per byte. */
  function Latin1(b: seq<byte>): (s: string)
    ensures |s| == |b|
    ensures forall i :: 0 <= i < |s| ==> s[i] as int == b[i]
  {
    seq(|b|, i requires 0 <= i < |b| => b[i] as char)
  }

  // ---------------------------------------------------------------------------
  // Round trip

  lemma QuadValues(b0: byte, b1: byte, b2: byte)
    ensures var q := Quad(b0, b1, b2);
      ValueOf(q[0]) == b0 / 4 && ValueOf(q[1]) == b0 % 4 * 16 + b1 / 16 &&
      ValueOf(q[2]) == b1 % 16 * 4 + b2 / 64 && ValueOf(q[3]) == b2 % 64
  {
    ValueOfCharOf(b0 / 4);
    ValueOfCharOf(b0 % 4 * 16 + b1 / 16);
    ValueOfCharOf(b1 % 16 * 4 + b2 / 64);
    ValueOfCharOf(b2 % 64);
  }

  lemma GroupOfThree(b0: byte, b1: byte, b2: byte)
    ensures First(b0 / 4, b0 % 4 * 16 + b1 / 16) == b0
    ensures Second(b0 % 4 * 16 + b1 / 16, b1 % 16 * 4 + b2 / 64) == b1
    ensures Third(b1 % 16 * 4 + b2 / 64, b2 % 64) == b2
  {
  }

  /** A full group decodes to its three bytes, ahead of whatever follows. */
  lemma {:induction false} QuadBytes(b0: byte, b1: byte, b2: byte, rest: string)
    requires |rest| % 4 != 1 && forall i :: 0 <= i < |rest| ==> InAlphabet(rest[i])
    ensures Bytes(Quad(b0, b1, b2) + rest) == [b0, b1, b2] + Bytes(rest)
  {
    var s := Quad(b0, b1, b2) + rest;
    QuadValues(b0, b1, b2);
    GroupOfThree(b0, b1, b2);
    assert s[4..] == rest;
  }

  /** A final group of one or two bytes decodes to them. */
  lemma {:induction false} ShortBytes(b: seq<byte>)
    requires 1 <= |b| <= 2
    ensures Bytes(Digits(b)) == b
  {
    if |b| == 1 {
      QuadValues(b[0], 0, 0);
      GroupOfThree(b[0], 0, 0);
    } else {
      QuadValues(b[0], b[1], 0);
      GroupOfThree(b[0], b[1], 0);
    }
  }

  lemma {:induction false} BytesOfDigits(b: seq<byte>)
    ensures Bytes(Digits(b)) == b
  {
    if |b| >= 3 {
      var rest := Digits(b[3..]);
      assert Digits(b) == Quad(b[0], b[1], b[2]) + rest;
      BytesOfDigits(b[3..]);
      QuadBytes(b[0], b[1], b[2], rest);
      assert b == [b[0], b[1], b[2]] + b[3..];
    } else if |b| > 0 {
      ShortBytes(b);
    }
  }

  lemma StripPlain(s: string)
    requires forall i :: 0 <= i < |s| ==> !AsciiWhitespace(s[i])
    ensures StripWhitespace(s) == s
  {
  }

  lemma DropPaddingOfEncode(b: seq<byte>)
    ensures DropPadding(Encode(b)) == Digits(b)
  {
    var d := Digits(b);
    var s := Encode(b);
    if |b| % 3 == 0 {
      assert s == d;
      if |d| > 0 {
        assert s[|s| - 1] == d[|d| - 1];
        assert InAlphabet(d[|d| - 1]);
      }
    } else if |b| % 3 == 2 {
      assert s[..|s| - 1] == d;
      assert s[|s| - 2] == d[|d| - 1];
      assert InAlphabet(d[|d| - 1]);
    } else {
      assert s[..|s| - 2] == d;
    }
  }

  /** `atob` reads back exactly the bytes that section 4 of RFC 4648 encodes. */
  lemma AtobEncode(b: seq<byte>)
    ensures Atob(Encode(b)) == Some(b)
  {
    var s := Encode(b);
    assert forall i :: 0 <= i < |s| ==> InAlphabet(s[i]) || s[i] == '=';
    StripPlain(s);
    DropPaddingOfEncode(b);
    BytesOfDigits(b);
  }

  /** An ASCII whitespace character (tab, line feed, form feed, carriage return or space)
      anywhere in the input is ignored. */
  lemma {:induction false} AtobIgnoresWhitespace(a: string, c: char, b: string)
    requires AsciiWhitespace(c)
    ensures Atob(a + [c] + b) == Atob(a + b)
  {
    StripAppend(a, [c] + b);
    StripAppend(a, b);
    assert ([c] + b)[1..] == b;
    assert StripWhitespace([c] + b) == StripWhitespace(b);
    assert a + [c] + b == a + ([c] + b);
  }

  lemma {:induction false} StripAppend(a: string, b: string)
    ensures StripWhitespace(a + b) == StripWhitespace(a) + StripWhitespace(b)
  {
    if a != [] {
      StripAppend(a[1..], b);
      assert (a + b)[0] == a[0] && (a + b)[1..] == a[1..] + b;
    } else {
      assert a + b == b;
    }
  }

  /** A length that leaves one character over is refused, as `atob("undefined")` is. */
  lemma AtobRejectsUndefined()
    ensures Atob("undefined") == None
  {
    var u := "undefined";
    forall i | 0 <= i < |u| ensures !AsciiWhitespace(u[i]) {
      assert 'a' <= u[i] <= 'z';
    }
    StripPlain(u);
    assert |StripWhitespace(u)| % 4 == 1;
  }
}
