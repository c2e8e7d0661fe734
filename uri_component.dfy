/** `encodeURIComponent` (section 19.2.6.5 of ECMA-262), and what the server does with the
    query string it receives: the `application/x-www-form-urlencoded` parser behind
    `URLSearchParams.get` (section 5.1 of the WHATWG URL standard), which percent-decodes each
    value and reads the bytes with the UTF-8 decoder of the WHATWG Encoding standard. */
module UriComponent {
  import opened Wrappers
  import opened Octets

  // ---------------------------------------------------------------------------
  // UTF-8 (RFC 3629)

  /** The UTF-8 bytes of one Unicode scalar value. */
  function Utf8(c: char): (bs: seq<byte>)
    ensures 1 <= |bs| <= 4
    ensures |bs| == 1 <==> c as int < 0x80
    ensures |bs| == 1 ==> bs[0] == c as int
  {
    var n := c as int;
    if n < 0x80 then [n]
    else if n < 0x800 then [0xC0 + n / 64, 0x80 + n % 64]
    else if n < 0x10000 then [0xE0 + n / 4096, 0x80 + n / 64 % 64, 0x80 + n % 64]
    else [0xF0 + n / 262144, 0x80 + n / 4096 % 64, 0x80 + n / 64 % 64, 0x80 + n % 64]
  }

  function Utf8Encode(s: string): seq<byte>
  {
    if s == [] then [] else Utf8(s[0]) + Utf8Encode(s[1..])
  }

  lemma {:induction false} Utf8EncodeAppend(a: string, b: string)
    ensures Utf8Encode(a + b) == Utf8Encode(a) + Utf8Encode(b)
  {
    if a == [] {
      assert a + b == b;
    } else {
      assert (a + b)[0] == a[0] && (a + b)[1..] == a[1..] + b;
      Utf8EncodeAppend(a[1..], b);
    }
  }

  predicate Ascii(s: string)
  {
    forall i :: 0 <= i < |s| ==> s[i] as int < 0x80
  }

  /** An ASCII string is encoded one byte per character. */
  lemma {:induction false} AsciiBytes(s: string)
    requires Ascii(s)
    ensures |Utf8Encode(s)| == |s|
    ensures forall i :: 0 <= i < |s| ==> Utf8Encode(s)[i] == s[i] as int
  {
    if s != [] {
      assert Ascii(s[1..]) by {
        forall i | 0 <= i < |s[1..]| ensures s[1..][i] as int < 0x80 {
          assert s[1..][i] == s[i + 1];
        }
      }
      AsciiBytes(s[1..]);
    }
  }

  // ---------------------------------------------------------------------------
  // The UTF-8 decoder of the WHATWG Encoding standard (section 9.1.1)

  const Replacement: char := '�'

  /** The character of a code point the decoder has assembled (always a scalar value). */
  function ToChar(n: int): char
  {
    if 0 <= n < 0xD800 || 0xE000 <= n < 0x110000 then n as char else Replacement
  }

  /** The decoder, one byte at a time: `needed` continuation bytes are expected, `seen` of
      them consumed, `cp` holds the bits so far, and the next continuation byte must lie in
      [lower, upper]. A malformed sequence becomes one U+FFFD, and a byte that breaks a
      sequence is read again from the start state. */
  function DecodeFrom(bs: seq<byte>, needed: nat, seen: nat, cp: int, lower: int, upper: int): string
    decreases |bs|, needed
  {
    if bs == [] then (if needed == 0 then [] else [Replacement])
    else
      var b := bs[0];
      if needed == 0 then
        if b <= 0x7F then [b as char] + DecodeFrom(bs[1..], 0, 0, 0, 0x80, 0xBF)
        else if 0xC2 <= b <= 0xDF then DecodeFrom(bs[1..], 1, 0, b - 0xC0, 0x80, 0xBF)
        else if 0xE0 <= b <= 0xEF then
          DecodeFrom(bs[1..], 2, 0, b - 0xE0, if b == 0xE0 then 0xA0 else 0x80, if b == 0xED then 0x9F else 0xBF)
        else if 0xF0 <= b <= 0xF4 then
          DecodeFrom(bs[1..], 3, 0, b - 0xF0, if b == 0xF0 then 0x90 else 0x80, if b == 0xF4 then 0x8F else 0xBF)
        else [Replacement] + DecodeFrom(bs[1..], 0, 0, 0, 0x80, 0xBF)
      else if !(lower <= b <= upper) then [Replacement] + DecodeFrom(bs, 0, 0, 0, 0x80, 0xBF)
      else if seen + 1 == needed then [ToChar(cp * 64 + (b - 0x80))] + DecodeFrom(bs[1..], 0, 0, 0, 0x80, 0xBF)
      else DecodeFrom(bs[1..], needed, seen + 1, cp * 64 + (b - 0x80), 0x80, 0xBF)
  }

  function Utf8Decode(bs: seq<byte>): string
  {
    DecodeFrom(bs, 0, 0, 0, 0x80, 0xBF)
  }

  lemma Digits2(n: int)
    requires 0x80 <= n < 0x800
    ensures 2 <= n / 64 < 32 && (n / 64) * 64 + n % 64 == n
  {
  }

  lemma Digits3(n: int)
    requires 0x800 <= n < 0x10000
    ensures n / 4096 < 16 && n / 64 == (n / 4096) * 64 + n / 64 % 64
    ensures (n / 64) * 64 + n % 64 == n
    ensures n / 4096 == 0 ==> n / 64 % 64 >= 32
    ensures n / 4096 == 13 ==> (n < 0xD800 <==> n / 64 % 64 < 32)
  {
  }

  lemma Digits4(n: int)
    requires 0x10000 <= n < 0x110000
    ensures n / 262144 <= 4 && n / 4096 == (n / 262144) * 64 + n / 4096 % 64
    ensures n / 64 == (n / 4096) * 64 + n / 64 % 64
    ensures (n / 64) * 64 + n % 64 == n
    ensures n / 262144 == 0 ==> n / 4096 % 64 >= 16
    ensures n / 262144 == 4 ==> n / 4096 % 64 < 16
  {
  }

  /** The decoder reads back the bytes of one character. */
  lemma DecodeChar(c: char, rest: seq<byte>)
    ensures Utf8Decode(Utf8(c) + rest) == [c] + Utf8Decode(rest)
  {
    var n := c as int;
    if n < 0x80 {
      assert (Utf8(c) + rest)[1..] == rest;
    } else if n < 0x800 {
      DecodeTwo(c, rest);
    } else if n < 0x10000 {
      DecodeThree(c, rest);
    } else {
      DecodeFour(c, rest);
    }
  }

  lemma DecodeTwo(c: char, rest: seq<byte>)
    requires 0x80 <= c as int < 0x800
    ensures Utf8Decode(Utf8(c) + rest) == [c] + Utf8Decode(rest)
  {
    var n := c as int;
    var bs := Utf8(c) + rest;
    Digits2(n);
    assert bs[0] == 0xC0 + n / 64 && bs[1] == 0x80 + n % 64;
    assert bs[1..][1..] == rest;
    assert ToChar(n) == c;
    assert DecodeFrom(bs, 0, 0, 0, 0x80, 0xBF) == DecodeFrom(bs[1..], 1, 0, n / 64, 0x80, 0xBF);
    assert DecodeFrom(bs[1..], 1, 0, n / 64, 0x80, 0xBF) == [ToChar(n)] + Utf8Decode(rest);
  }

  lemma DecodeThree(c: char, rest: seq<byte>)
    requires 0x800 <= c as int < 0x10000
    ensures Utf8Decode(Utf8(c) + rest) == [c] + Utf8Decode(rest)
  {
    var n := c as int;
    var bs := Utf8(c) + rest;
    Digits3(n);
    var b0, b1, b2 := 0xE0 + n / 4096, 0x80 + n / 64 % 64, 0x80 + n % 64;
    assert bs[0] == b0 && bs[1] == b1 && bs[2] == b2;
    assert bs[1..][1..][1..] == rest;
    assert ToChar(n) == c;
    var lower := if b0 == 0xE0 then 0xA0 else 0x80;
    var upper := if b0 == 0xED then 0x9F else 0xBF;
    assert lower <= b1 <= upper;
    assert DecodeFrom(bs, 0, 0, 0, 0x80, 0xBF) == DecodeFrom(bs[1..], 2, 0, n / 4096, lower, upper);
    assert DecodeFrom(bs[1..], 2, 0, n / 4096, lower, upper) == DecodeFrom(bs[1..][1..], 2, 1, n / 64, 0x80, 0xBF);
    assert DecodeFrom(bs[1..][1..], 2, 1, n / 64, 0x80, 0xBF) == [ToChar(n)] + Utf8Decode(rest);
  }

  lemma DecodeFour(c: char, rest: seq<byte>)
    requires 0x10000 <= c as int
    ensures Utf8Decode(Utf8(c) + rest) == [c] + Utf8Decode(rest)
  {
    var n := c as int;
    var bs := Utf8(c) + rest;
    Digits4(n);
    var b0, b1, b2, b3 := 0xF0 + n / 262144, 0x80 + n / 4096 % 64, 0x80 + n / 64 % 64, 0x80 + n % 64;
    assert bs[0] == b0 && bs[1] == b1 && bs[2] == b2 && bs[3] == b3;
    assert bs[1..][1..][1..][1..] == rest;
    assert ToChar(n) == c;
    var lower := if b0 == 0xF0 then 0x90 else 0x80;
    var upper := if b0 == 0xF4 then 0x8F else 0xBF;
    assert lower <= b1 <= upper;
    assert DecodeFrom(bs, 0, 0, 0, 0x80, 0xBF) == DecodeFrom(bs[1..], 3, 0, n / 262144, lower, upper);
    assert DecodeFrom(bs[1..], 3, 0, n / 262144, lower, upper) == DecodeFrom(bs[1..][1..], 3, 1, n / 4096, 0x80, 0xBF);
    assert DecodeFrom(bs[1..][1..], 3, 1, n / 4096, 0x80, 0xBF) == DecodeFrom(bs[1..][1..][1..], 3, 2, n / 64, 0x80, 0xBF);
    assert DecodeFrom(bs[1..][1..][1..], 3, 2, n / 64, 0x80, 0xBF) == [ToChar(n)] + Utf8Decode(rest);
  }

  /** Decoding the UTF-8 bytes of a string gives the string back. */
  lemma {:induction false} Utf8RoundTrip(s: string)
    ensures Utf8Decode(Utf8Encode(s)) == s
  {
    if s != [] {
      DecodeChar(s[0], Utf8Encode(s[1..]));
      Utf8RoundTrip(s[1..]);
    }
  }

  // ---------------------------------------------------------------------------
  // encodeURIComponent

  /** The characters `encodeURIComponent` leaves as they are. */
  predicate Unreserved(c: char)
  {
    'A' <= c <= 'Z' || 'a' <= c <= 'z' || '0' <= c <= '9' ||
    c == '-' || c == '_' || c == '.' || c == '!' || c == '~' || c == '*' || c == '\'' || c == '(' || c == ')'
  }

  /** An upper-case hexadecimal digit. */
  function HexDigit(v: int): (c: char)
    requires 0 <= v < 16
    ensures Unreserved(c) && c as int < 0x80
  {
    if v < 10 then ('0' as int + v) as char else ('A' as int + v - 10) as char
  }

  /** `%XY` for one byte. */
  function Escape(b: byte): (s: string)
    ensures |s| == 3 && s[0] == '%' && Unreserved(s[1]) && Unreserved(s[2]) && Ascii(s)
  {
    ['%', HexDigit(b / 16), HexDigit(b % 16)]
  }

  function EscapeAll(bs: seq<byte>): (s: string)
    ensures forall i :: 0 <= i < |s| ==> Unreserved(s[i]) || s[i] == '%'
    ensures Ascii(s)
  {
    if bs == [] then [] else Escape(bs[0]) + EscapeAll(bs[1..])
  }

  function EncodeChar(c: char): (s: string)
    ensures forall i :: 0 <= i < |s| ==> Unreserved(s[i]) || s[i] == '%'
    ensures Ascii(s)
  {
    if Unreserved(c) then [c] else EscapeAll(Utf8(c))
  }

  /** `encodeURIComponent(s)`: every character outside the unreserved set is replaced by the
      escapes of its UTF-8 bytes, so the result holds only unreserved characters and `%`. */
  function Encode(s: string): (r: string)
    ensures forall i :: 0 <= i < |r| ==> Unreserved(r[i]) || r[i] == '%'
    ensures Ascii(r)
  {
    if s == [] then [] else EncodeChar(s[0]) + Encode(s[1..])
  }

  // ---------------------------------------------------------------------------
  // The server side: percent-decoding and the urlencoded parser

  /** The value of an ASCII hexadecimal digit byte, either case. */
  function HexValue(b: byte): Option<int>
  {
    if '0' as int <= b <= '9' as int then Some(b - '0' as int)
    else if 'A' as int <= b <= 'F' as int then Some(b - 'A' as int + 10)
    else if 'a' as int <= b <= 'f' as int then Some(b - 'a' as int + 10)
    else None
  }

  /** Percent-decoding of bytes: `%` and two hex digits become one byte; anything else,
      a stray `%` included, is kept. */
  function PercentDecode(bs: seq<byte>): seq<byte>
  {
    if bs == [] then []
    else if bs[0] == '%' as int && |bs| >= 3 && HexValue(bs[1]).Some? && HexValue(bs[2]).Some? then
      [HexValue(bs[1]).value * 16 + HexValue(bs[2]).value] + PercentDecode(bs[3..])
    else [bs[0]] + PercentDecode(bs[1..])
  }

  function ReplacePlus(bs: seq<byte>): seq<byte>
  {
    if bs == [] then [] else [if bs[0] == '+' as int then ' ' as int else bs[0]] + ReplacePlus(bs[1..])
  }

  /** How a name or a value of a query string is read. */
  function FormDecode(bs: seq<byte>): string
  {
    Utf8Decode(PercentDecode(ReplacePlus(bs)))
  }

  /** The index of the first `b`, or `|bs|`. */
  function IndexOf(bs: seq<byte>, b: byte): (k: nat)
    ensures k <= |bs| && b !in bs[..k]
    ensures k < |bs| ==> bs[k] == b
  {
    if bs == [] || bs[0] == b then 0
    else
      var k := IndexOf(bs[1..], b);
      assert bs[..k + 1] == [bs[0]] + bs[1..][..k];
      k + 1
  }

  /** The `&`-separated sequences of a query, empty ones skipped, each cut at its first `=`
      into a decoded name and value. */
  function Pairs(query: seq<byte>): seq<(string, string)>
    decreases |query|
  {
    var k := IndexOf(query, '&' as int);
    var piece := query[..k];
    var here := if piece == [] then [] else
      var e := IndexOf(piece, '=' as int);
      [(FormDecode(piece[..e]), if e < |piece| then FormDecode(piece[e + 1..]) else "")];
    if k == |query| then here else here + Pairs(query[k + 1..])
  }

  function Lookup(pairs: seq<(string, string)>, key: string): Option<string>
  {
    if pairs == [] then None
    else if pairs[0].0 == key then Some(pairs[0].1)
    else Lookup(pairs[1..], key)
  }

  /** The query of a URL (without `?`), given as the text between the first `?` and the
      fragment. */
  function Search(url: string): string
  {
    var beforeFragment := if '#' in url then url[..CharIndex(url, '#')] else url;
    if '?' in beforeFragment then beforeFragment[CharIndex(beforeFragment, '?') + 1..] else ""
  }

  function CharIndex(s: string, c: char): (k: nat)
    requires c in s
    ensures k < |s| && s[k] == c && c !in s[..k]
  {
    if s[0] == c then 0
    else
      var k := CharIndex(s[1..], c);
      assert s[..k + 1] == [s[0]] + s[1..][..k];
      k + 1
  }

  /** `new URL(url, base).searchParams.get(key)` */
  function RequestParam(url: string, key: string): Option<string>
  {
    Lookup(Pairs(Utf8Encode(Search(url))), key)
  }

  // ---------------------------------------------------------------------------
  // What the server reads back

  lemma HexRoundTrip(v: int)
    requires 0 <= v < 16
    ensures HexValue(HexDigit(v) as int) == Some(v)
  {
  }

  lemma EscapeDecodes(b: byte, tail: seq<byte>)
    ensures PercentDecode(Utf8Encode(Escape(b)) + tail) == [b] + PercentDecode(tail)
  {
    var e := Escape(b);
    AsciiBytes(e);
    var u := Utf8Encode(e) + tail;
    HexRoundTrip(b / 16);
    HexRoundTrip(b % 16);
    assert e == ['%', HexDigit(b / 16), HexDigit(b % 16)];
    assert u[0] == '%' as int && u[1] == HexDigit(b / 16) as int && u[2] == HexDigit(b % 16) as int;
    assert u[3..] == tail;
    assert (b / 16) * 16 + b % 16 == b;
  }

  lemma {:induction false} EscapesDecode(bs: seq<byte>, rest: seq<byte>)
    ensures PercentDecode(Utf8Encode(EscapeAll(bs)) + rest) == bs + PercentDecode(rest)
  {
    if bs != [] {
      var e := Escape(bs[0]);
      var tail := Utf8Encode(EscapeAll(bs[1..])) + rest;
      assert EscapeAll(bs) == e + EscapeAll(bs[1..]);
      Utf8EncodeAppend(e, EscapeAll(bs[1..]));
      assert Utf8Encode(EscapeAll(bs)) + rest == Utf8Encode(e) + tail;
      EscapeDecodes(bs[0], tail);
      EscapesDecode(bs[1..], rest);
      assert bs == [bs[0]] + bs[1..];
      assert [bs[0]] + (bs[1..] + PercentDecode(rest)) == bs + PercentDecode(rest);
    } else {
      assert Utf8Encode(EscapeAll(bs)) + rest == rest;
    }
  }

  lemma EncodedCharDecodes(c: char, rest: seq<byte>)
    ensures PercentDecode(Utf8Encode(EncodeChar(c)) + rest) == Utf8(c) + PercentDecode(rest)
  {
    if Unreserved(c) {
      assert Utf8Encode([c]) == Utf8(c) + Utf8Encode([]);
      assert (Utf8(c) + rest)[1..] == rest;
    } else {
      EscapesDecode(Utf8(c), rest);
    }
  }

  /** Percent-decoding undoes the escapes: the bytes are the UTF-8 bytes of the original. */
  lemma {:induction false} EncodedBytesDecode(s: string)
    ensures PercentDecode(Utf8Encode(Encode(s))) == Utf8Encode(s)
  {
    if s != [] {
      Utf8EncodeAppend(EncodeChar(s[0]), Encode(s[1..]));
      EncodedCharDecodes(s[0], Utf8Encode(Encode(s[1..])));
      EncodedBytesDecode(s[1..]);
    }
  }

  /** Bytes of an ASCII string in which a character does not occur do not hold its code. */
  lemma AsciiWithout(s: string, c: char)
    requires Ascii(s) && c !in s
    ensures c as int !in Utf8Encode(s)
  {
    AsciiBytes(s);
    assert forall i :: 0 <= i < |s| ==> s[i] != c;
  }

  lemma {:induction false} ReplacePlusWithout(bs: seq<byte>)
    requires '+' as int !in bs
    ensures ReplacePlus(bs) == bs
  {
    if bs != [] {
      assert '+' as int !in bs[1..];
      ReplacePlusWithout(bs[1..]);
    }
  }

  /** `decodeURIComponent`-style reading of a value, applied to `encodeURIComponent(s)`,
      gives `s` back. */
  lemma FormDecodeEncode(s: string)
    ensures FormDecode(Utf8Encode(Encode(s))) == s
  {
    assert '+' !in Encode(s);
    AsciiWithout(Encode(s), '+');
    ReplacePlusWithout(Utf8Encode(Encode(s)));
    EncodedBytesDecode(s);
    Utf8RoundTrip(s);
  }

  /** The query of `base?q` is `q` when neither part holds a fragment marker and `base`
      holds no `?`. */
  lemma SearchOf(base: string, q: string)
    requires '?' !in base && '#' !in base && '#' !in q
    ensures Search(base + "?" + q) == q
  {
    var url := base + "?" + q;
    assert '#' !in url by {
      forall i | 0 <= i < |url| ensures url[i] != '#' {
        if i < |base| { assert url[i] == base[i]; }
        else if i > |base| { assert url[i] == q[i - |base| - 1]; }
      }
    }
    assert url[|base|] == '?' && url[..|base|] == base;
    assert CharIndex(url, '?') == |base|;
    assert url[|base| + 1..] == q;
  }

  lemma IndexOfFirst(bs: seq<byte>, b: byte, k: nat)
    requires k < |bs| && bs[k] == b && b !in bs[..k]
    ensures IndexOf(bs, b) == k
  {
  }

  /** A query of one `name=value` pair without `&` is read as that pair. */
  lemma SinglePair(bk: seq<byte>, bv: seq<byte>)
    requires '&' as int !in bk && '&' as int !in bv && '=' as int !in bk
    ensures Pairs(bk + ['=' as int] + bv) == [(FormDecode(bk), FormDecode(bv))]
  {
    var bq := bk + ['=' as int] + bv;
    assert '&' as int !in bq;
    assert IndexOf(bq, '&' as int) == |bq|;
    assert bq[..|bq|] == bq;
    assert bq[..|bk|] == bk;
    IndexOfFirst(bq, '=' as int, |bk|);
    assert bq[|bk| + 1..] == bv;
  }

  /** `encodeURIComponent` output holds none of the characters that delimit a query. */
  lemma EncodedDelimiterFree(s: string)
    ensures '#' !in Encode(s) && '&' !in Encode(s) && '=' !in Encode(s) && '?' !in Encode(s)
  {
    var e := Encode(s);
    forall i | 0 <= i < |e| ensures e[i] != '#' && e[i] != '&' && e[i] != '=' && e[i] != '?' {
      assert Unreserved(e[i]) || e[i] == '%';
    }
  }

  lemma PairBytes(ek: string, ev: string)
    ensures Utf8Encode(ek + "=" + ev) == Utf8Encode(ek) + ['=' as int] + Utf8Encode(ev)
  {
    Utf8EncodeAppend(ek + "=", ev);
    Utf8EncodeAppend(ek, "=");
    assert Utf8Encode("=") == ['=' as int] by {
      AsciiBytes("=");
    }
  }

  /** A query parameter written with `encodeURIComponent` on both sides of `=` is read back
      by the server exactly: `searchParams.get(key)` on `base?key=value` is `value`. */
  lemma QueryRoundTrip(base: string, key: string, value: string)
    requires '?' !in base && '#' !in base
    ensures RequestParam(base + "?" + Encode(key) + "=" + Encode(value), key) == Some(value)
  {
    var ek, ev := Encode(key), Encode(value);
    var q := ek + "=" + ev;
    EncodedDelimiterFree(key);
    EncodedDelimiterFree(value);
    assert '#' !in q;
    assert base + "?" + ek + "=" + ev == base + "?" + q;
    SearchOf(base, q);
    PairBytes(ek, ev);
    AsciiWithout(ek, '&');
    AsciiWithout(ev, '&');
    AsciiWithout(ek, '=');
    SinglePair(Utf8Encode(ek), Utf8Encode(ev));
    FormDecodeEncode(key);
    FormDecodeEncode(value);
    assert Pairs(Utf8Encode(q)) == [(key, value)];
  }
}
