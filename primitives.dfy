/** The foreign cryptographic primitives that Node's `crypto` module supplies.
    Their internals are not modelled: a `Suite` carries them as function values,
    and `Sound` states the only facts about them that the rest of the model uses. */
module Primitives {
  import opened Common

  /** What `cipher.final()` and `cipher.getAuthTag()` leave behind. */
  datatype Sealed = Sealed(ciphertext: Bytes, tag: Bytes)

  datatype Suite = Suite(
    /** HMAC-SHA256: `crypto.createHmac('sha256', key).update(data).digest()`. */
    hmac: (Bytes, Bytes) -> Bytes,
    /** `crypto.scrypt(password, salt, keylen)` with Node's default cost parameters. */
    scrypt: (Bytes, Bytes, nat) -> Bytes,
    /** `crypto.slowHash(passphrase, salt)`, which lib/recrypt.js calls. */
    slowHash: (Bytes, Bytes) -> Bytes,
    /** AES-256-GCM encryption under a key and a nonce. */
    seal: (Bytes, Bytes, Bytes) -> Sealed,
    /** AES-256-GCM decryption of (ciphertext, tag) under a key and a nonce;
        `None` whenever `decipher.final()` throws. */
    open: (Bytes, Bytes, Bytes, Bytes) -> Option<Bytes>)

  /** The assumptions about the primitives. HMAC-SHA256 digests are 32 bytes,
      scrypt yields the requested length, and under a 32-byte key GCM keeps the
      plaintext length, yields a 16-byte tag and opens what it sealed. */
  ghost predicate Sound(c: Suite) {
    && (forall k, d :: |c.hmac(k, d)| == 32)
    && (forall p, s, n :: |c.scrypt(p, s, n)| == n)
    && (forall k, n, p :: |k| == 32 ==>
          |c.seal(k, n, p).ciphertext| == |p| && |c.seal(k, n, p).tag| == 16)
    && (forall k, n, p :: |k| == 32 ==>
          c.open(k, n, c.seal(k, n, p).ciphertext, c.seal(k, n, p).tag) == Some(p))
  }

  /** The assumptions are consistent: a (cryptographically useless) suite meets them. */
  lemma SoundIsSatisfiable()
    ensures exists c :: Sound(c)
  {
    var zeros := (n: nat) => seq(n, _ => 0 as byte);
    var c := Suite(
      (k: Bytes, d: Bytes) => zeros(32),
      (p: Bytes, s: Bytes, n: nat) => zeros(n),
      (p: Bytes, s: Bytes) => p,
      (k: Bytes, n: Bytes, p: Bytes) => Sealed(p, zeros(16)),
      (k: Bytes, n: Bytes, ct: Bytes, t: Bytes) => Some(ct));
    assert Sound(c);
  }
}
