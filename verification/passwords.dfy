/**
 * The password-strength rule and the random alphanumeric generator of the
 * `auth` package (internal/auth/passwords.go; internal/auth/auth.go holds a
 * second, identical copy of the generator).
 */
module Passwords {
  import opened Options
  import opened Strings

  // ---------------------------------------------------------------------------
  // Strength rule
  // ---------------------------------------------------------------------------

  /** Go's `len(s)`: the length of `s` in bytes, not in runes. */
  function ByteLen(s: string): nat {
    |Bytes(s)|
  }

  /** The distinct runes of `s`: the keys the strength check collects. */
  function Runes(s: string): set<char> {
    set c | c in s
  }

  /** The strength rule as the code states it: a byte length of at least 8, then at least 8 distinct runes. */
  predicate Strong(password: string) {
    ByteLen(password) >= 8 && |Runes(password)| >= 8
  }

  /** `SufficientlyStrong`: the length guard, then a loop that fills a set of seen runes. */
  method SufficientlyStrong(password: string) returns (strong: bool)
    ensures strong == Strong(password)
    ensures strong <==> |Runes(password)| >= 8
    ensures ByteLen(password) < 8 ==> !strong
  {
    StrongIffEightRunes(password);
    if ByteLen(password) < 8 {
      return false;
    }
    var chars: map<char, bool> := map[];
    for i := 0 to |password|
      invariant chars.Keys == Runes(password[..i])
    {
      assert password[..i + 1] == password[..i] + [password[i]];
      chars := chars[password[i] := true];
    }
    assert password[..|password|] == password;
    strong := |chars.Keys| >= 8;
  }

  lemma {:induction false} RunesAtMostLength(s: string)
    ensures |Runes(s)| <= |s|
    decreases |s|
  {
    if s != [] {
      RunesAtMostLength(s[1..]);
      assert Runes(s) == {s[0]} + Runes(s[1..]);
    }
  }

  lemma {:induction false} LengthAtMostBytes(s: string)
    ensures |s| <= ByteLen(s)
    decreases |s|
  {
    if s != [] {
      LengthAtMostBytes(s[1..]);
    }
  }

  /**
   * The length guard is redundant: 8 distinct runes already take 8 bytes, so the
   * rule is exactly "at least 8 distinct runes".
   */
  lemma StrongIffEightRunes(password: string)
    ensures Strong(password) <==> |Runes(password)| >= 8
  {
    RunesAtMostLength(password);
    LengthAtMostBytes(password);
  }

  /** The verdict depends only on the set of distinct runes: repeating or reordering characters never changes it. */
  lemma StrongDependsOnlyOnRunes(p: string, q: string)
    requires Runes(p) == Runes(q)
    ensures Strong(p) == Strong(q)
  {
    StrongIffEightRunes(p);
    StrongIffEightRunes(q);
  }

  /** Appending characters never turns a strong password into a weak one. */
  lemma StrongPreservedByAppend(p: string, q: string)
    requires Strong(p)
    ensures Strong(p + q)
  {
    var big := Runes(p + q);
    assert Runes(p) <= big by {
      forall c | c in Runes(p) ensures c in big {
        var k :| 0 <= k < |p| && p[k] == c;
        assert (p + q)[k] == c;
      }
    }
    assert big == Runes(p) + (big - Runes(p));
    StrongIffEightRunes(p);
    StrongIffEightRunes(p + q);
  }

  /** A string whose characters all occur in `t` has at most `|t|` distinct runes. */
  lemma RunesBoundedBy(s: string, t: string)
    requires forall i :: 0 <= i < |s| ==> s[i] in t
    ensures |Runes(s)| <= |t|
  {
    var small, big := Runes(s), Runes(t);
    assert small <= big;
    assert big == small + (big - small);
    RunesAtMostLength(t);
  }

  /** A strictly ascending string has as many distinct runes as characters. */
  lemma {:induction false} AscendingRunes(s: string)
    requires forall i :: 0 <= i < |s| - 1 ==> s[i] < s[i + 1]
    ensures |Runes(s)| == |s|
    ensures forall c :: c in Runes(s) ==> s[0] <= c
    decreases |s|
  {
    if s != [] {
      var rest := s[1..];
      AscendingRunes(rest);
      assert Runes(s) == {s[0]} + Runes(rest);
      assert s[0] !in Runes(rest);
    }
  }

  // The table of internal/auth/passwords_test.go, one lemma per row.

  lemma TestVectorFoobar()
    ensures !Strong("foobar")
  {
    StrongIffEightRunes("foobar");
    RunesAtMostLength("foobar");
  }

  lemma TestVectorFooooooooooo()
    ensures !Strong("foooooooooo")
  {
    RunesBoundedBy("foooooooooo", "fo");
  }

  lemma TestVectorDigits()
    ensures Strong("12345678")
  {
    AscendingRunes("12345678");
    StrongIffEightRunes("12345678");
  }

  lemma TestVectorRepeatedFive()
    ensures !Strong("abcdeabcdeabcde")
  {
    RunesBoundedBy("abcdeabcdeabcde", "abcde");
  }

  lemma TestVectorFifteenLetters()
    ensures Strong("abcdefghijklmno")
  {
    AscendingRunes("abcdefghijklmno");
    StrongIffEightRunes("abcdefghijklmno");
  }

  // ---------------------------------------------------------------------------
  // Random alphanumeric passwords and tokens
  // ---------------------------------------------------------------------------

  predicate IsAlnum(c: char) {
    ('0' <= c <= '9') || ('A' <= c <= 'Z') || ('a' <= c <= 'z')
  }

  /** The characters with code points `lo` to `hi`, ascending. */
  function CodeRange(lo: int, hi: int): seq<char>
    requires 0 <= lo && hi < 0xD800
    decreases hi - lo + 1
  {
    if hi < lo then [] else CodeRange(lo, hi - 1) + [hi as char]
  }

  /** The 62-character alphabet, in the order the generator appends it: digits, `A`-`Z`, `a`-`z`. */
  function Alphabet(): seq<char> {
    CodeRange('0' as int, '9' as int) + CodeRange('A' as int, 'Z' as int) + CodeRange('a' as int, 'z' as int)
  }

  lemma {:induction false} CodeRangeAt(lo: int, hi: int)
    requires 0 <= lo <= hi + 1 && hi < 0xD800
    ensures |CodeRange(lo, hi)| == hi - lo + 1
    ensures forall k :: 0 <= k <= hi - lo ==> CodeRange(lo, hi)[k] as int == lo + k
    decreases hi - lo + 1
  {
    if lo <= hi {
      CodeRangeAt(lo, hi - 1);
    }
  }

  /** The alphabet has 62 entries: `0`-`9` at 0..9, `A`-`Z` at 10..35, `a`-`z` at 36..61. */
  lemma AlphabetLayout()
    ensures |Alphabet()| == 62
    ensures forall k :: 0 <= k < 10 ==> Alphabet()[k] as int == '0' as int + k
    ensures forall k :: 10 <= k < 36 ==> Alphabet()[k] as int == 'A' as int + (k - 10)
    ensures forall k :: 36 <= k < 62 ==> Alphabet()[k] as int == 'a' as int + (k - 36)
  {
    CodeRangeAt('0' as int, '9' as int);
    CodeRangeAt('A' as int, 'Z' as int);
    CodeRangeAt('a' as int, 'z' as int);
  }

  /**
   * The alphabet is strictly ascending, so its 62 entries are distinct and a uniform
   * index gives every character the same chance; its members are exactly the
   * alphanumeric characters.
   */
  lemma AlphabetIsAlnumAscending()
    ensures forall i, j :: 0 <= i < j < |Alphabet()| ==> Alphabet()[i] < Alphabet()[j]
    ensures forall c :: c in Alphabet() <==> IsAlnum(c)
  {
    var a := Alphabet();
    AlphabetLayout();
    forall c | IsAlnum(c) ensures c in a {
      if '0' <= c <= '9' {
        assert a[c as int - '0' as int] == c;
      } else if 'A' <= c <= 'Z' {
        assert a[c as int - 'A' as int + 10] == c;
      } else {
        assert a[c as int - 'a' as int + 36] == c;
      }
    }
  }

  /** The three loops that append the digits, the upper-case and the lower-case letters. */
  method BuildAlphabet() returns (alphabet: seq<char>)
    ensures alphabet == Alphabet()
  {
    alphabet := [];
    var c := '0' as int;
    while c <= '9' as int
      invariant '0' as int <= c <= '9' as int + 1
      invariant alphabet == CodeRange('0' as int, c - 1)
    {
      alphabet := alphabet + [c as char];
      c := c + 1;
    }
    ghost var digits := alphabet;
    c := 'A' as int;
    while c <= 'Z' as int
      invariant 'A' as int <= c <= 'Z' as int + 1
      invariant alphabet == digits + CodeRange('A' as int, c - 1)
    {
      alphabet := alphabet + [c as char];
      c := c + 1;
    }
    ghost var upper := alphabet;
    c := 'a' as int;
    while c <= 'z' as int
      invariant 'a' as int <= c <= 'z' as int + 1
      invariant alphabet == upper + CodeRange('a' as int, c - 1)
    {
      alphabet := alphabet + [c as char];
      c := c + 1;
    }
  }

  /**
   * `RandomPasswordAlnum(n)`: `n` characters, each drawn from the alphabet by a
   * uniform random index. The random source is a nondeterministic choice that
   * may also fail, in which case the result is an error (None).
   */
  method RandomPasswordAlnum(n: nat) returns (password: Option<string>)
    ensures password.Some? ==> |password.value| == n
    ensures password.Some? ==> forall k :: 0 <= k < n ==> password.value[k] in Alphabet()
    ensures password.Some? ==> forall k :: 0 <= k < n ==> IsAlnum(password.value[k])
  {
    var buf := new char[n];
    var alphabet := BuildAlphabet();
    AlphabetLayout();
    AlphabetIsAlnumAscending();
    for i := 0 to n
      invariant forall k :: 0 <= k < i ==> buf[k] in alphabet
    {
      var ok: bool :| true;
      if !ok {
        return None;
      }
      var x: int :| 0 <= x < |alphabet|;
      buf[i] := alphabet[x];
    }
    password := Some(buf[..]);
  }
}
