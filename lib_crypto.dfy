/** lib/crypto.js: HKDF (RFC 5869) over HMAC-SHA256, and thin wrappers over
    the foreign scrypt and AES-256-GCM calls. */
module LibCrypto {
  import opened Common
  import opened Primitives

  /** HKDF-Extract (section 2.2 of RFC 5869): `PRK = HMAC(salt, IKM)`. */
  function Prk(c: Suite, ikm: Bytes, salt: Bytes): Bytes {
    c.hmac(salt, ikm)
  }

  /** Block `T(i)` as the loop computes it: `T(0)` is empty and
      `T(i) = HMAC(PRK, T(i-1) ++ info ++ [i])`. `Buffer.from` keeps only the low
      eight bits of the counter, so it wraps after 255. */
  function T(c: Suite, prk: Bytes, info: Bytes, i: nat): Bytes {
    if i == 0 then [] else c.hmac(prk, T(c, prk, info, i - 1) + info + [i % 256])
  }

  /** The `okm` array after `n` iterations: `[T(1), ..., T(n)]`. */
  function Blocks(c: Suite, prk: Bytes, info: Bytes, n: nat): (bs: seq<Bytes>)
    ensures |bs| == n
    ensures forall i :: 0 <= i < n ==> bs[i] == T(c, prk, info, i + 1)
  {
    if n == 0 then [] else Blocks(c, prk, info, n - 1) + [T(c, prk, info, n)]
  }

  /** Number of loop iterations: `Math.ceil(length / 32)`. */
  function BlockCount(length: nat): nat {
    CeilDiv(length, 32)
  }

  /** What `hkdf(length, ikm, salt, info)` returns. */
  function HkdfSpec(c: Suite, length: nat, ikm: Bytes, salt: Bytes, info: Bytes): Bytes {
    Take(Concat(Blocks(c, Prk(c, ikm, salt), info, BlockCount(length))), length)
  }

  /** `exports.hkdf`: extract, then the expand loop that pushes one HMAC block per
      iteration, then `Buffer.concat(okm).slice(0, length)`. The default
      `info = Buffer.alloc(0)` is the caller passing `[]`. */
  method Hkdf(c: Suite, length: nat, ikm: Bytes, salt: Bytes, info: Bytes) returns (okm: Bytes)
    ensures okm == HkdfSpec(c, length, ikm, salt, info)
  {
    var prk := c.hmac(salt, ikm);
    var blocks: seq<Bytes> := [];
    var t: Bytes := [];
    var i := 0;
    while i < CeilDiv(length, 32)
      invariant 0 <= i <= CeilDiv(length, 32)
      invariant t == T(c, prk, info, i)
      invariant blocks == Blocks(c, prk, info, i)
    {
      t := c.hmac(prk, t + info + [(1 + i) % 256]);
      blocks := blocks + [t];
      i := i + 1;
    }
    okm := Take(Concat(blocks), length);
  }

  /** Under the HMAC assumption the output is exactly `length` bytes. */
  lemma HkdfLength(c: Suite, length: nat, ikm: Bytes, salt: Bytes, info: Bytes)
    requires Sound(c)
    ensures |HkdfSpec(c, length, ikm, salt, info)| == length
  {
    var bs := Blocks(c, Prk(c, ikm, salt), info, BlockCount(length));
    ConcatUniformLength(bs, 32);
  }

  /** `ceil(length/32)` blocks are the fewest whose concatenation covers `length`
      bytes: one block fewer would not be enough. */
  lemma HkdfBlockCountMinimal(c: Suite, length: nat, ikm: Bytes, salt: Bytes, info: Bytes)
    requires Sound(c)
    ensures var prk := Prk(c, ikm, salt);
            var n := BlockCount(length);
            |Concat(Blocks(c, prk, info, n))| >= length &&
            (n == 0 || |Concat(Blocks(c, prk, info, n - 1))| < length)
  {
    var prk := Prk(c, ikm, salt);
    var n := BlockCount(length);
    ConcatUniformLength(Blocks(c, prk, info, n), 32);
    if n > 0 {
      ConcatUniformLength(Blocks(c, prk, info, n - 1), 32);
    }
  }

  /** A shorter output is a prefix of a longer one for the same inputs. */
  lemma HkdfPrefix(c: Suite, l1: nat, l2: nat, ikm: Bytes, salt: Bytes, info: Bytes)
    requires Sound(c) && l1 <= l2
    ensures HkdfSpec(c, l1, ikm, salt, info) <= HkdfSpec(c, l2, ikm, salt, info)
  {
    var prk := Prk(c, ikm, salt);
    var n1, n2 := BlockCount(l1), BlockCount(l2);
    var bs1, bs2 := Blocks(c, prk, info, n1), Blocks(c, prk, info, n2);
    assert bs2[..n1] == bs1;
    ConcatPrefix(bs2, n1);
    HkdfLength(c, l1, ikm, salt, info);
    HkdfLength(c, l2, ikm, salt, info);
  }

  /** `T(i)` exactly as section 2.3 of RFC 5869 writes it, for `1 <= i <= 255`:
      the counter is the single octet `i`. */
  function RfcT(c: Suite, prk: Bytes, info: Bytes, i: nat): Bytes
    requires i <= 255
  {
    if i == 0 then [] else c.hmac(prk, RfcT(c, prk, info, i - 1) + info + [i])
  }

  lemma {:induction false} BlockIsRfcBlock(c: Suite, prk: Bytes, info: Bytes, i: nat)
    requires i <= 255
    ensures T(c, prk, info, i) == RfcT(c, prk, info, i)
  {
    if i > 0 {
      BlockIsRfcBlock(c, prk, info, i - 1);
    }
  }

  /** Within the RFC's limit `L <= 255 * HashLen = 8160` every block the loop
      computes is the RFC's `T(i)`, so the counter never wraps. */
  lemma HkdfIsRfc5869(c: Suite, length: nat, ikm: Bytes, salt: Bytes, info: Bytes)
    requires length <= 255 * 32
    ensures BlockCount(length) <= 255
    ensures forall i :: 1 <= i <= BlockCount(length) ==>
      Blocks(c, Prk(c, ikm, salt), info, BlockCount(length))[i - 1] == RfcT(c, Prk(c, ikm, salt), info, i)
  {
    var prk := Prk(c, ikm, salt);
    forall i | 1 <= i <= BlockCount(length)
      ensures Blocks(c, prk, info, BlockCount(length))[i - 1] == RfcT(c, prk, info, i)
    {
      BlockIsRfcBlock(c, prk, info, i);
    }
  }

  /** `exports.scrypt(password, salt)`: 64 bytes of `crypto.scrypt`. */
  function Scrypt(c: Suite, password: Bytes, salt: Bytes): (ikm: Bytes)
    ensures Sound(c) ==> |ikm| == 64
  {
    c.scrypt(password, salt, 64)
  }

  /** `exports.encrypt(plaintext, key, nonce)`: `{ ciphertext, tag }`. */
  function Encrypt(c: Suite, plaintext: Bytes, key: Bytes, nonce: Bytes): (r: Sealed)
    ensures Sound(c) && |key| == 32 ==> |r.ciphertext| == |plaintext| && |r.tag| == 16
  {
    c.seal(key, nonce, plaintext)
  }

  /** `exports.decrypt({ ciphertext, tag, nonce }, key)`; `None` where it throws.
      A ciphertext and tag that `seal` wrote under this key and nonce open to
      the plaintext sealed. */
  function Decrypt(c: Suite, ciphertext: Bytes, nonce: Bytes, tag: Bytes, key: Bytes): (r: Option<Bytes>)
    ensures Sound(c) && |key| == 32 ==>
      forall p :: c.seal(key, nonce, p) == Sealed(ciphertext, tag) ==> r == Some(p)
  {
    c.open(key, nonce, ciphertext, tag)
  }

  /** The AEAD assumption as the two wrappers see it. */
  lemma DecryptEncrypt(c: Suite, plaintext: Bytes, key: Bytes, nonce: Bytes)
    requires Sound(c) && |key| == 32
    ensures var s := Encrypt(c, plaintext, key, nonce);
            Decrypt(c, s.ciphertext, nonce, s.tag, key) == Some(plaintext)
  {
  }
}
