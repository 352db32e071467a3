/**
 * bcrypt (golang.org/x/crypto/bcrypt), as the backend uses it for account
 * passwords and reset tokens. A well-formed hash is modelled symbolically: it
 * records the secret it was made from and its random salt. What a hash accepts
 * is what the Eksblowfish key schedule reads of a password: its UTF-8 bytes
 * followed by one zero byte, repeated to fill 72 bytes. So a hash accepts its own
 * secret, any password sharing the first 72 bytes of a secret that long, and
 * some passwords holding U+0000; for a shorter secret and passwords without
 * U+0000 it accepts exactly its own secret. One-wayness, cost and timing are
 * not expressible here.
 */
module Bcrypt {
  import opened Options
  import opened Strings

  /** The number of key bytes the Eksblowfish key schedule reads. */
  const MaxKeyBytes := 72

  datatype Digest =
    | Hashed(secret: string, salt: nat)
    | Malformed(text: string)   // whatever else a hash column may hold

  /** The first `n` bytes of `key` repeated over and over. */
  function Cycle(key: seq<Byte>, n: nat): (r: seq<Byte>)
    requires key != []
    ensures |r| == n
    ensures n <= |key| ==> r == key[..n]
    ensures forall i :: 0 <= i < n && i < |key| ==> r[i] == key[i]
    decreases n
  {
    if n <= |key| then key[..n] else key + Cycle(key, n - |key|)
  }

  /** The 72 key bytes the key schedule reads: the password's bytes and a zero byte, cyclically. */
  function KeyStream(secret: string): (k: seq<Byte>)
    ensures |k| == MaxKeyBytes
  {
    Cycle(Bytes(secret) + [0], MaxKeyBytes)
  }

  /** `bcrypt.CompareHashAndPassword(d, secret) == nil`: a well-formed hash whose key schedule reads the same bytes. */
  predicate Verify(d: Digest, secret: string) {
    d.Hashed? && KeyStream(d.secret) == KeyStream(secret)
  }

  /**
   * `bcrypt.GenerateFromPassword(secret, bcrypt.DefaultCost)`: a freshly salted
   * hash of the secret, or an error; a secret of more than 72 bytes is always an
   * error (`ErrPasswordTooLong`).
   */
  method GenerateFromPassword(secret: string) returns (d: Option<Digest>)
    ensures d.Some? ==> d.value.Hashed? && d.value.secret == secret && Verify(d.value, secret)
    ensures |Bytes(secret)| > MaxKeyBytes ==> d.None?
  {
    if |Bytes(secret)| > MaxKeyBytes {
      return None;
    }
    var ok: bool :| true;
    if ok {
      var salt: nat :| true;
      d := Some(Hashed(secret, salt));
    } else {
      d := None;
    }
  }

  /**
   * For a secret shorter than 72 bytes, and passwords without U+0000, a hash
   * accepts exactly its own secret: the zero byte that ends the key marks where
   * the secret ends.
   */
  lemma ShortSecretVerifiesExactly(s: string, salt: nat, p: string)
    requires |Bytes(s)| < MaxKeyBytes && '\0' !in s && '\0' !in p
    ensures Verify(Hashed(s, salt), p) <==> p == s
  {
    if Verify(Hashed(s, salt), p) {
      var S, P := Bytes(s), Bytes(p);
      var K, J := S + [0], P + [0];
      NoZeroByte(s);
      NoZeroByte(p);
      // Both keys agree up to the shorter one's terminating zero byte, which
      // the other one can only match with its own.
      var m := if |S| < |P| then |S| else |P|;
      assert K[m] == KeyStream(s)[m] == KeyStream(p)[m] == J[m];
      assert |S| == |P|;
      forall i | 0 <= i < |S| ensures S[i] == P[i] {
        assert K[i] == KeyStream(s)[i] == KeyStream(p)[i] == J[i];
      }
      assert S == P;
      BytesInjective(s, p);
    }
  }

  /** A password whose first byte differs from the secret's is refused. */
  lemma FirstByteDiffers(s: string, salt: nat, p: string)
    requires s != [] && p != [] && EncodeRune(s[0])[0] != EncodeRune(p[0])[0]
    ensures !Verify(Hashed(s, salt), p)
  {
    assert KeyStream(s)[0] == Bytes(s)[0] == EncodeRune(s[0])[0];
    assert KeyStream(p)[0] == Bytes(p)[0] == EncodeRune(p[0])[0];
  }

  /** `[]byte(p + q)` is `[]byte(p)` followed by `[]byte(q)`. */
  lemma {:induction false} BytesAppend(p: string, q: string)
    ensures Bytes(p + q) == Bytes(p) + Bytes(q)
  {
    if p != [] {
      BytesAppend(p[1..], q);
      assert (p + q)[1..] == p[1..] + q;
    } else {
      assert p + q == q;
    }
  }

  /**
   * Only the first 72 bytes count: the hash of a secret of at least 72 bytes
   * (exactly 72 is the most `GenerateFromPassword` accepts) also accepts that
   * secret followed by anything.
   */
  lemma LongSecretAcceptsExtensions(s: string, salt: nat, q: string)
    requires |Bytes(s)| >= MaxKeyBytes
    ensures Verify(Hashed(s, salt), s + q)
  {
    BytesAppend(s, q);
    var K, J := Bytes(s) + [0], Bytes(s + q) + [0];
    assert KeyStream(s) == K[..MaxKeyBytes] == Bytes(s)[..MaxKeyBytes];
    assert KeyStream(s + q) == J[..MaxKeyBytes] == Bytes(s)[..MaxKeyBytes];
  }

  /** Repeating a key twice does not change what the schedule reads. */
  lemma {:induction false} CycleDoubled(key: seq<Byte>, n: nat)
    requires key != []
    ensures Cycle(key + key, n) == Cycle(key, n)
    decreases n
  {
    var k := |key|;
    if n <= k {
      assert (key + key)[..n] == key[..n];
    } else if n <= 2 * k {
      assert Cycle(key, n - k) == key[..n - k];
      assert (key + key)[..n] == key + key[..n - k];
    } else {
      CycleDoubled(key, n - 2 * k);
      assert Cycle(key, n - k) == key + Cycle(key, n - 2 * k);
    }
  }

  /** A password holding U+0000 can match a different secret: `s`, U+0000, `s` repeats the key of `s`. */
  lemma ZeroRuneRepeatAccepted(s: string, salt: nat)
    ensures Verify(Hashed(s, salt), s + ['\0'] + s)
  {
    var p := s + ['\0'] + s;
    BytesAppend(s + ['\0'], s);
    BytesAppend(s, ['\0']);
    assert Bytes(['\0']) == [0];
    var K := Bytes(s) + [0];
    assert Bytes(p) + [0] == K + K;
    CycleDoubled(K, MaxKeyBytes);
  }
}
