/**
 * The two functions of Go's `strings` package that the backend relies on:
 * `strings.Index` (for a one-character needle) and `strings.TrimSpace`.
 * Strings are sequences of Unicode code points, as Go's `range` sees them.
 */
module Strings {

  /** `strings.Index(s, string(c))`: position of the first `c` in `s`, or -1 when there is none. */
  function Index(s: string, c: char): (i: int)
    ensures -1 <= i < |s|
    ensures i == -1 <==> c !in s
    ensures 0 <= i ==> s[i] == c && c !in s[..i]
    decreases |s|
  {
    if s == [] then -1
    else if s[0] == c then 0
    else
      var j := Index(s[1..], c);
      if j == -1 then -1
      else
        assert s[..j + 1] == [s[0]] + s[1..][..j];
        j + 1
  }

  /** A byte of Go's `[]byte`. */
  newtype Byte = x: int | 0 <= x < 0x100

  /** The UTF-8 encoding of one rune: one byte below U+0080, otherwise a lead byte and continuation bytes, none of them zero. */
  function EncodeRune(c: char): (b: seq<Byte>)
    ensures 1 <= |b| <= 4
    ensures |b| == 1 <==> c < '\U{80}'
    ensures c != '\0' ==> forall k :: 0 <= k < |b| ==> b[k] != 0
  {
    var n := c as int;
    if n < 0x80 then [n as Byte]
    else if n < 0x800 then [(0xC0 + n / 0x40) as Byte, (0x80 + n % 0x40) as Byte]
    else if n < 0x1_0000 then
      [(0xE0 + n / 0x1000) as Byte, (0x80 + n / 0x40 % 0x40) as Byte, (0x80 + n % 0x40) as Byte]
    else
      [(0xF0 + n / 0x4_0000) as Byte, (0x80 + n / 0x1000 % 0x40) as Byte, (0x80 + n / 0x40 % 0x40) as Byte, (0x80 + n % 0x40) as Byte]
  }

  /** `[]byte(s)`: the UTF-8 bytes of `s`, which is what Go's strings hold. */
  function Bytes(s: string): (b: seq<Byte>)
    ensures s == [] <==> b == []
  {
    if s == [] then [] else EncodeRune(s[0]) + Bytes(s[1..])
  }

  /** A string without the rune U+0000 has no zero byte. */
  lemma {:induction false} NoZeroByte(s: string)
    requires '\0' !in s
    ensures 0 !in Bytes(s)
  {
    if s != [] {
      NoZeroByte(s[1..]);
    }
  }

  /** The length of an encoding, as its lead byte announces it. */
  function LeadLength(lead: Byte): nat {
    if lead < 0x80 then 1 else if lead < 0xE0 then 2 else if lead < 0xF0 then 3 else 4
  }

  /** The code point an encoding of 1 to 4 bytes stands for. */
  function DecodeRune(b: seq<Byte>): int
    requires 1 <= |b| <= 4
  {
    if |b| == 1 then b[0] as int
    else if |b| == 2 then (b[0] as int - 0xC0) * 0x40 + (b[1] as int - 0x80)
    else if |b| == 3 then (b[0] as int - 0xE0) * 0x1000 + (b[1] as int - 0x80) * 0x40 + (b[2] as int - 0x80)
    else (b[0] as int - 0xF0) * 0x4_0000 + (b[1] as int - 0x80) * 0x1000 + (b[2] as int - 0x80) * 0x40 + (b[3] as int - 0x80)
  }

  /** Decoding inverts encoding, and the lead byte gives the length. */
  lemma DecodeEncode(c: char)
    ensures LeadLength(EncodeRune(c)[0]) == |EncodeRune(c)|
    ensures DecodeRune(EncodeRune(c)) == c as int
  {
    var n := c as int;
    if n < 0x80 {
    } else if n < 0x800 {
      DecodeTwo(c);
    } else if n < 0x1_0000 {
      DecodeThree(c);
    } else {
      DecodeFour(c);
    }
  }

  lemma DecodeTwo(c: char)
    requires 0x80 <= c as int < 0x800
    ensures LeadLength(EncodeRune(c)[0]) == |EncodeRune(c)| == 2
    ensures DecodeRune(EncodeRune(c)) == c as int
  {
    var n := c as int;
    var b := EncodeRune(c);
    assert b[0] as int == 0xC0 + n / 0x40 && b[1] as int == 0x80 + n % 0x40;
  }

  lemma DecodeThree(c: char)
    requires 0x800 <= c as int < 0x1_0000
    ensures LeadLength(EncodeRune(c)[0]) == |EncodeRune(c)| == 3
    ensures DecodeRune(EncodeRune(c)) == c as int
  {
    var n := c as int;
    var h := n / 0x40;
    var b := EncodeRune(c);
    assert b[0] as int == 0xE0 + n / 0x1000 && b[1] as int == 0x80 + h % 0x40 && b[2] as int == 0x80 + n % 0x40;
    assert n / 0x1000 == h / 0x40;
  }

  lemma DecodeFour(c: char)
    requires 0x1_0000 <= c as int
    ensures LeadLength(EncodeRune(c)[0]) == |EncodeRune(c)| == 4
    ensures DecodeRune(EncodeRune(c)) == c as int
  {
    var n := c as int;
    var h := n / 0x40;
    var t := n / 0x1000;
    var b := EncodeRune(c);
    assert b[0] as int == 0xF0 + n / 0x4_0000 && b[1] as int == 0x80 + t % 0x40;
    assert b[2] as int == 0x80 + h % 0x40 && b[3] as int == 0x80 + n % 0x40;
    assert t == h / 0x40 && n / 0x4_0000 == t / 0x40;
  }

  /** The lead byte of an encoding fixes its length, so a rune is read back from its bytes. */
  lemma EncodeRuneInjective(c: char, d: char, x: seq<Byte>, y: seq<Byte>)
    requires EncodeRune(c) + x == EncodeRune(d) + y
    ensures c == d && x == y
  {
    var b, e := EncodeRune(c), EncodeRune(d);
    DecodeEncode(c);
    DecodeEncode(d);
    assert b[0] == (b + x)[0] == (e + y)[0] == e[0];
    assert |b| == |e|;
    assert b == (b + x)[..|b|] == (e + y)[..|e|] == e;
    assert x == (b + x)[|b|..] == (e + y)[|e|..] == y;
  }

  /** UTF-8 is injective: two strings with the same bytes are the same string. */
  lemma {:induction false} BytesInjective(p: string, q: string)
    requires Bytes(p) == Bytes(q)
    ensures p == q
  {
    if p != [] {
      assert q != [];
      EncodeRuneInjective(p[0], q[0], Bytes(p[1..]), Bytes(q[1..]));
      BytesInjective(p[1..], q[1..]);
      assert p == [p[0]] + p[1..] && q == [q[0]] + q[1..];
    }
  }

  /** White space as Go's `unicode.IsSpace` defines it. */
  predicate IsSpace(c: char) {
    || c == '\t' || c == '\n' || c == '\U{0B}' || c == '\U{0C}' || c == '\r' || c == ' '
    || c == '\U{85}' || c == '\U{A0}' || c == '\U{1680}'
    || ('\U{2000}' <= c <= '\U{200A}')
    || c == '\U{2028}' || c == '\U{2029}' || c == '\U{202F}' || c == '\U{205F}' || c == '\U{3000}'
  }

  /** The number of white-space characters `s` starts with. */
  function LeadingSpaces(s: string): (n: nat)
    ensures n <= |s|
    ensures forall k :: 0 <= k < n ==> IsSpace(s[k])
    ensures n == |s| || !IsSpace(s[n])
  {
    if s != [] && IsSpace(s[0]) then 1 + LeadingSpaces(s[1..]) else 0
  }

  /** The number of white-space characters `s` ends with. */
  function TrailingSpaces(s: string): (n: nat)
    ensures n <= |s|
    ensures forall k :: |s| - n <= k < |s| ==> IsSpace(s[k])
    ensures n == |s| || !IsSpace(s[|s| - n - 1])
  {
    if s != [] && IsSpace(s[|s| - 1]) then 1 + TrailingSpaces(s[..|s| - 1]) else 0
  }

  /** Drops the leading white space of `s`. */
  function TrimLeft(s: string): (r: string) {
    s[LeadingSpaces(s)..]
  }

  /** Drops the trailing white space of `s`. */
  function TrimRight(s: string): (r: string) {
    s[..|s| - TrailingSpaces(s)]
  }

  /** `strings.TrimSpace(s)`: `s` without its leading and trailing white space. */
  function TrimSpace(s: string): (r: string)
    ensures |r| <= |s|
    ensures r == [] || (!IsSpace(r[0]) && !IsSpace(r[|r| - 1]))
    ensures (forall k :: 0 <= k < |s| ==> !IsSpace(s[k])) ==> r == s
    ensures var i := LeadingSpaces(s);
      && i + |r| <= |s| && r == s[i..i + |r|]
      && (forall k :: 0 <= k < i ==> IsSpace(s[k]))
      && (forall k :: i + |r| <= k < |s| ==> IsSpace(s[k]))
  {
    var i := LeadingSpaces(s);
    var r := TrimRight(TrimLeft(s));
    assert r == s[i..i + |r|];
    r
  }

  /** A string that neither starts nor ends with white space is its own trim. */
  lemma TrimSpaceKeepsUnspacedEnds(s: string)
    requires s != [] && !IsSpace(s[0]) && !IsSpace(s[|s| - 1])
    ensures TrimSpace(s) == s
  {
    assert TrimLeft(s) == s;
  }
}
