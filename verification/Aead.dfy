/**
 ChaCha20-Poly1305 as the pool's tools use it (section 2.8 of RFC 8439): the keystream
 xor, the text the tag is over, and opening. The ChaCha20 block function and Poly1305
 are parameters.
 */
module Aead {
  import opened Crc32c

  datatype Opened = Closed | Plain(data: Bytes)

  /** `block(key, counter, nonce)` is 64 bytes; `poly(key, text)` is 16. */
  datatype Cipher = Cipher(block: (Bytes, nat, Bytes) -> Bytes, poly: (Bytes, Bytes) -> Bytes)

  ghost predicate Sized(c: Cipher) {
    && (forall k, n, s :: |c.block(k, n, s)| == 64)
    && (forall k, m :: |c.poly(k, m)| == 16)
  }

  // ---- the keystream ----

  /** Byte `i` of the keystream that starts at block `counter`. */
  function StreamByte(c: Cipher, key: Bytes, counter: nat, nonce: Bytes, i: nat): bv8
    requires |c.block(key, counter + i / 64, nonce)| == 64
  {
    c.block(key, counter + i / 64, nonce)[i % 64]
  }

  function Xored(c: Cipher, key: Bytes, counter: nat, nonce: Bytes, data: Bytes): (r: Bytes)
    requires Sized(c)
    ensures |r| == |data|
    ensures forall i :: 0 <= i < |data| ==> r[i] == data[i] ^ StreamByte(c, key, counter, nonce, i)
  {
    seq(|data|, i requires 0 <= i < |data| => data[i] ^ StreamByte(c, key, counter, nonce, i))
  }

  /** `out` is the start of `data` under the keystream. */
  ghost predicate Streamed(c: Cipher, key: Bytes, counter: nat, nonce: Bytes, data: Bytes, out: Bytes)
    requires Sized(c)
  {
    |out| <= |data| && forall k :: 0 <= k < |out| ==> out[k] == data[k] ^ StreamByte(c, key, counter, nonce, k)
  }

  /** `chacha20_xor`: 64 bytes at a time, the last block cut short. */
  method ChaChaXor(c: Cipher, key: Bytes, counter: nat, nonce: Bytes, data: Bytes) returns (out: Bytes)
    requires Sized(c)
    ensures out == Xored(c, key, counter, nonce, data)
  {
    out := [];
    var i := 0;
    while i < |data|
      invariant i % 64 == 0 && |out| == if i <= |data| then i else |data|
      invariant Streamed(c, key, counter, nonce, data, out)
      decreases |data| - i
    {
      out := NextPart(c, key, counter, nonce, data, out);
      i := i + 64;
    }
  }

  method NextPart(c: Cipher, key: Bytes, counter: nat, nonce: Bytes, data: Bytes, out: Bytes) returns (next: Bytes)
    requires Sized(c) && |out| % 64 == 0 && Streamed(c, key, counter, nonce, data, out)
    ensures |next| == if |out| + 64 <= |data| then |out| + 64 else |data|
    ensures Streamed(c, key, counter, nonce, data, next)
  {
    var i := |out|;
    var ks := c.block(key, counter + i / 64, nonce);
    var n := if i + 64 <= |data| then 64 else |data| - i;
    var part := seq(n, k requires 0 <= k < n => data[i + k] ^ ks[k]);
    next := out + part;
    forall k | i <= k < i + n
      ensures next[k] == data[k] ^ StreamByte(c, key, counter, nonce, k)
    {
      BlockPlace(i, k - i);
    }
  }

  lemma BlockPlace(i: nat, k: nat)
    requires i % 64 == 0 && k < 64
    ensures (i + k) / 64 == i / 64 && (i + k) % 64 == k
  {
  }

  lemma XorBack(a: bv8, b: bv8)
    ensures (a ^ b) ^ b == a
  {
  }

  /** Encrypting and decrypting are one operation, at every length. */
  lemma XoredTwice(c: Cipher, key: Bytes, counter: nat, nonce: Bytes, data: Bytes)
    requires Sized(c)
    ensures Xored(c, key, counter, nonce, Xored(c, key, counter, nonce, data)) == data
  {
    var once := Xored(c, key, counter, nonce, data);
    forall i | 0 <= i < |data|
      ensures once[i] ^ StreamByte(c, key, counter, nonce, i) == data[i]
    {
      XorBack(data[i], StreamByte(c, key, counter, nonce, i));
    }
  }

  // ---- the text under the tag ----

  function Zeros(n: nat): (r: Bytes)
    ensures |r| == n && forall i :: 0 <= i < n ==> r[i] == 0
  {
    seq(n, _ => 0)
  }

  function Pad16(b: Bytes): (r: Bytes)
    ensures |r| == |b| + (16 - |b| % 16) % 16 && |r| % 16 == 0 && b <= r
  {
    b + Zeros((16 - |b| % 16) % 16)
  }

  function Pow256(k: nat): nat {
    if k == 0 then 1 else 256 * Pow256(k - 1)
  }

  /** `n` in `k` bytes, the lowest first. */
  function Le(n: nat, k: nat): (r: Bytes)
    ensures |r| == k
    decreases k
  {
    if k == 0 then [] else [(n % 256) as bv8] + Le(n / 256, k - 1)
  }

  function FromLe(b: Bytes): nat
    decreases |b|
  {
    if b == [] then 0 else b[0] as nat + 256 * FromLe(b[1..])
  }

  lemma {:induction false} LeRoundTrip(n: nat, k: nat)
    requires n < Pow256(k)
    ensures FromLe(Le(n, k)) == n
    decreases k
  {
    if k > 0 {
      var b := LowByte(n);
      var rest := Le(n / 256, k - 1);
      LeRoundTrip(n / 256, k - 1);
      FromLeCons(b, rest);
    }
  }

  lemma LowByte(n: nat) returns (b: bv8)
    ensures b == (n % 256) as bv8 && b as nat == n % 256
  {
    var m := n % 256;
    ByteRound(m);
    b := m as bv8;
  }

  lemma Successor(b: bv8)
    ensures b == 255 || (b + 1) as nat == b as nat + 1
  {
  }

  /** Every number below 256 is a byte's. */
  lemma {:induction false} ByteFor(m: nat) returns (b: bv8)
    requires m < 256
    ensures b as nat == m
  {
    b := 0;
    if m > 0 {
      b := ByteFor(m - 1);
      Successor(b);
      b := b + 1;
    }
  }

  lemma ByteRound(m: nat)
    requires m < 256
    ensures (m as bv8) as nat == m
  {
    var b := ByteFor(m);
    assert (b as nat) as bv8 == b;
  }

  lemma FromLeCons(b: bv8, rest: Bytes)
    ensures FromLe([b] + rest) == b as nat + 256 * FromLe(rest)
  {
    assert ([b] + rest)[1..] == rest;
  }

  function MacText(aad: Bytes, ct: Bytes): Bytes {
    Pad16(aad) + Pad16(ct) + Le(|aad|, 8) + Le(|ct|, 8)
  }

  lemma Tail<T>(a: seq<T>, b: seq<T>, c: seq<T>, d: seq<T>)
    requires a + b == c + d && |b| == |d|
    ensures a == c && b == d
  {
    var n := |a + b| - |b|;
    assert (a + b)[..n] == a && (a + b)[n..] == b;
    assert (c + d)[..n] == c && (c + d)[n..] == d;
  }

  lemma Tails<T>(a: seq<T>, b: seq<T>, c: seq<T>, a': seq<T>, b': seq<T>, c': seq<T>)
    requires a + b + c == a' + b' + c' && |b| == |b'| && |c| == |c'|
    ensures a == a' && b == b' && c == c'
  {
    Tail(a + b, c, a' + b', c');
    Tail(a, b, a', b');
  }

  lemma LeInjective(m: nat, n: nat)
    requires m < Pow256(8) && n < Pow256(8) && Le(m, 8) == Le(n, 8)
    ensures m == n
  {
    LeRoundTrip(m, 8);
    LeRoundTrip(n, 8);
  }

  lemma PadInjective(b: Bytes, b': Bytes)
    requires Pad16(b) == Pad16(b') && |b| == |b'|
    ensures b == b'
  {
    assert Pad16(b)[..|b|] == b && Pad16(b')[..|b|] == b';
  }

  lemma PadsInjective(aad: Bytes, ct: Bytes, aad': Bytes, ct': Bytes)
    requires |aad| == |aad'| && |ct| == |ct'| && Pad16(aad) + Pad16(ct) == Pad16(aad') + Pad16(ct')
    ensures aad == aad' && ct == ct'
  {
    Tail(Pad16(aad), Pad16(ct), Pad16(aad'), Pad16(ct'));
    PadInjective(aad, aad');
    PadInjective(ct, ct');
  }

  /** The tag is over both texts and over which is which: nothing else has that text. */
  lemma MacTextInjective(aad: Bytes, ct: Bytes, aad': Bytes, ct': Bytes)
    requires |aad| < Pow256(8) && |ct| < Pow256(8) && |aad'| < Pow256(8) && |ct'| < Pow256(8)
    requires MacText(aad, ct) == MacText(aad', ct')
    ensures aad == aad' && ct == ct'
  {
    var p, p' := Pad16(aad) + Pad16(ct), Pad16(aad') + Pad16(ct');
    Tails(p, Le(|aad|, 8), Le(|ct|, 8), p', Le(|aad'|, 8), Le(|ct'|, 8));
    LeInjective(|ct|, |ct'|);
    LeInjective(|aad|, |aad'|);
    PadsInjective(aad, ct, aad', ct');
  }

  // ---- opening ----

  function TagOf(c: Cipher, key: Bytes, nonce: Bytes, aad: Bytes, ct: Bytes): (tag: Bytes)
    requires Sized(c)
    ensures |tag| == 16
  {
    c.poly(c.block(key, 0, nonce)[..32], MacText(aad, ct))
  }

  /** `aead_open`. */
  function Open(c: Cipher, key: Bytes, nonce: Bytes, aad: Bytes, ct: Bytes, tag: Bytes): Opened
    requires Sized(c)
  {
    if TagOf(c, key, nonce, aad, ct) != tag then Closed else Plain(Xored(c, key, 1, nonce, ct))
  }

  lemma OpenSealed(c: Cipher, key: Bytes, nonce: Bytes, aad: Bytes, data: Bytes)
    requires Sized(c)
    ensures var ct := Xored(c, key, 1, nonce, data);
      Open(c, key, nonce, aad, ct, TagOf(c, key, nonce, aad, ct)) == Plain(data)
  {
    XoredTwice(c, key, 1, nonce, data);
  }
}
