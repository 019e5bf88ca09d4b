/** app/lib/crypto.js: a password-sealed bundle. The key is scrypt of the
    password under a 16-byte salt; the plaintext is sealed with AES-256-GCM
    under a 16-byte nonce; the bundle is the strict codec's text of
    `{ ciphertext, salt, nonce, tag }`. The two `randomBytes(16)` draws are the
    `salt` and `nonce` parameters. */
module AppCrypto {
  import opened Common
  import opened Primitives
  import Utf8
  import opened Codec
  import AppUtil

  const DecryptionFailed: string := "Decryption failed"

  /** `genKey(password, salt)`: `scrypt(Buffer.from(password), salt, 32)`. */
  function GenKey(c: Suite, password: string, salt: Bytes): (key: Bytes)
    ensures Sound(c) ==> |key| == 32
  {
    c.scrypt(Utf8.Encode(password), salt, 32)
  }

  /** The description `encrypt` serializes. */
  function Seal(c: Suite, password: string, plaintext: Bytes, salt: Bytes, nonce: Bytes): Description {
    var s := c.seal(GenKey(c, password, salt), nonce, plaintext);
    Description(s.ciphertext, salt, nonce, s.tag)
  }

  /** `exports.encrypt(password, plaintext)`: never fails, since the object it
      serializes has exactly the four fields, and the bundle carries the salt
      and nonce it drew. */
  function Encrypt(c: Suite, password: string, plaintext: Bytes, salt: Bytes, nonce: Bytes): (r: Result<string>)
    requires |salt| == 16 && |nonce| == 16
    ensures r.Ok?
  {
    AppUtil.DeserializeSerializeDescription(Seal(c, password, plaintext, salt, nonce));
    AppUtil.Serialize(ToObject(Seal(c, password, plaintext, salt, nonce)))
  }

  /** The bundle decodes to the sealed description, which carries the salt
      and nonce that were drawn and, for a sound cipher, a ciphertext as long
      as the plaintext. */
  lemma DeserializeEncrypt(c: Suite, password: string, plaintext: Bytes, salt: Bytes, nonce: Bytes)
    requires |salt| == 16 && |nonce| == 16
    ensures AppUtil.Deserialize(Encrypt(c, password, plaintext, salt, nonce).value) ==
      Ok(Seal(c, password, plaintext, salt, nonce))
    ensures var d := AppUtil.Deserialize(Encrypt(c, password, plaintext, salt, nonce).value).value;
      d.salt == salt && d.nonce == nonce
    ensures Sound(c) ==>
      |AppUtil.Deserialize(Encrypt(c, password, plaintext, salt, nonce).value).value.ciphertext| == |plaintext|
  {
    AppUtil.DeserializeSerializeDescription(Seal(c, password, plaintext, salt, nonce));
  }

  /** `exports.decrypt(password, description)`. A malformed description fails
      with 'Invalid description' before any key is derived; every failure of
      the decipher is 'Decryption failed'. */
  function Decrypt(c: Suite, password: string, description: string): (r: Result<Bytes>)
    ensures r.Err? ==> r.msg == InvalidDescription || r.msg == DecryptionFailed
  {
    match AppUtil.Deserialize(description)
    case Err(_) => Err(InvalidDescription)
    case Ok(d) =>
      var key := GenKey(c, password, d.salt);
      match c.open(key, d.nonce, d.ciphertext, d.tag)
      case None => Err(DecryptionFailed)
      case Some(p) => Ok(p)
  }

  /** Which of the two errors `decrypt` gives, and when it succeeds. */
  lemma DecryptCases(c: Suite, password: string, description: string)
    ensures AppUtil.Deserialize(description).Err? ==> Decrypt(c, password, description) == Err(InvalidDescription)
    ensures AppUtil.Deserialize(description).Ok? ==>
      var d := AppUtil.Deserialize(description).value;
      var o := c.open(GenKey(c, password, d.salt), d.nonce, d.ciphertext, d.tag);
      (o.None? ==> Decrypt(c, password, description) == Err(DecryptionFailed)) &&
      (o.Some? ==> Decrypt(c, password, description) == Ok(o.value))
  {
  }

  /** `decrypt(w, encrypt(w, p))` is `p`: the decrypting side derives the same
      key from the stored salt. */
  lemma DecryptEncrypt(c: Suite, password: string, plaintext: Bytes, salt: Bytes, nonce: Bytes)
    requires Sound(c) && |salt| == 16 && |nonce| == 16
    ensures Decrypt(c, password, Encrypt(c, password, plaintext, salt, nonce).value) == Ok(plaintext)
  {
    DeserializeEncrypt(c, password, plaintext, salt, nonce);
    var key := GenKey(c, password, salt);
    assert c.open(key, nonce, c.seal(key, nonce, plaintext).ciphertext, c.seal(key, nonce, plaintext).tag)
      == Some(plaintext);
  }
}
