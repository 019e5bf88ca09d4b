/** lib/recrypt.js: passphrase encryption with a slow hash, HKDF and
    AES-256-GCM. The key is `hkdf(32, slowHash(passphrase, salt1), salt2)`, and
    the bundle carries five fields: ciphertext, salt1, salt2, nonce and tag.
    The three `randomBytes` draws are the parameters `salt1` (16 bytes),
    `salt2` (32 bytes) and `nonce` (16 bytes). */
module Recrypt {
  import opened Common
  import opened Primitives
  import Base64
  import Utf8
  import Json
  import opened Codec
  import LibCrypto
  import LibUtil

  const DecryptionFailed: string := "Decryption failed"

  /** The five fields of a recrypt bundle, in the order `encrypt` writes them. */
  const Names: seq<string> := ["ciphertext", "salt1", "salt2", "nonce", "tag"]

  datatype Bundle = Bundle(ciphertext: Bytes, salt1: Bytes, salt2: Bytes, nonce: Bytes, tag: Bytes)

  /** A `(Buffer|String)` argument. */
  datatype Data = Raw(bytes: Bytes) | Text(text: string)

  /** `Buffer.isBuffer(x) ? x : Buffer.from(x)`. */
  function ToBuffer(x: Data): Bytes {
    match x
    case Raw(b) => b
    case Text(s) => Utf8.Encode(s)
  }

  /** The `encoding` argument of `decrypt` and what `toString(encoding)` gives. */
  datatype Encoding = Base64Text | Utf8Text

  datatype Output = Decoded(text: string) | Plaintext(bytes: Bytes)

  function Render(p: Bytes, encoding: Option<Encoding>): (out: Output)
    ensures encoding.None? ==> out == Plaintext(p)
    ensures encoding == Some(Base64Text) ==> out == Decoded(Base64.Encode(p))
    ensures encoding == Some(Utf8Text) ==> out == Decoded(Utf8.ToString(p))
  {
    match encoding
    case None => Plaintext(p)
    case Some(Base64Text) => Decoded(Base64.Encode(p))
    case Some(Utf8Text) => Decoded(Utf8.ToString(p))
  }

  /** The key both sides derive from the passphrase and the two salts. */
  function Key(c: Suite, passphrase: Data, salt1: Bytes, salt2: Bytes): (k: Bytes)
    ensures Sound(c) ==> |k| == 32
  {
    var ikm := c.slowHash(ToBuffer(passphrase), salt1);
    assert Sound(c) ==> |LibCrypto.HkdfSpec(c, 32, ikm, salt2, [])| == 32 by {
      if Sound(c) {
        LibCrypto.HkdfLength(c, 32, ikm, salt2, []);
      }
    }
    LibCrypto.HkdfSpec(c, 32, ikm, salt2, [])
  }

  function ToObject(b: Bundle): map<string, Bytes> {
    map["ciphertext" := b.ciphertext, "salt1" := b.salt1, "salt2" := b.salt2,
        "nonce" := b.nonce, "tag" := b.tag]
  }

  function Values(b: Bundle): seq<Bytes> {
    [b.ciphertext, b.salt1, b.salt2, b.nonce, b.tag]
  }

  function FromValues(vs: seq<Bytes>): (b: Bundle)
    requires |vs| == |Names|
    ensures Values(b) == vs
  {
    Bundle(vs[0], vs[1], vs[2], vs[3], vs[4])
  }

  lemma ObjectHasNames(b: Bundle)
    ensures forall i :: 0 <= i < |Names| ==> Names[i] in ToObject(b) && ToObject(b)[Names[i]] == Values(b)[i]
  {
  }

  /** The five-field bundle text: each field base64, in a JSON object, base64'd.
      The JSON text begins `{"ciphertext"`, so the bundle is never empty: it
      starts "ey". */
  function Serialize(b: Bundle): (r: string)
    ensures |r| >= 2 && r[..2] == "ey"
  {
    ObjectHasNames(b);
    var ms := EncodeFields(Names, ToObject(b)).value;
    assert ms[0].0 == Names[0];
    WrapStartsWithEy(ms);
    Wrap(ms)
  }

  /** The lenient decoding of a five-field bundle: other members are ignored,
      and every failure is 'Invalid description'. */
  function Deserialize(b64: string): (r: Result<Bundle>)
    ensures r.Err? ==> r.msg == InvalidDescription
    ensures r.Ok? <==> Unwrap(b64).Some? && DecodeFields(Names, Unwrap(b64).value).Some?
    ensures r.Ok? ==> DecodeFields(Names, Unwrap(b64).value) == Some(Values(r.value))
  {
    match Unwrap(b64)
    case None => Err(InvalidDescription)
    case Some(ms) =>
      match DecodeFields(Names, ms)
      case None => Err(InvalidDescription)
      case Some(vs) => Ok(FromValues(vs))
  }

  lemma DeserializeSerialize(b: Bundle)
    ensures Deserialize(Serialize(b)) == Ok(b)
  {
    var ms := UnwrapSerialized(b);
    DecodeBundle(b);
    DeserializeOk(Serialize(b), ms, Values(b));
    assert FromValues(Values(b)) == b;
  }

  lemma NamesPlain()
    ensures forall i :: 0 <= i < |Names| ==> Json.Plain(Names[i])
  {
  }

  lemma NamesDistinct()
    ensures Distinct(Names)
  {
  }

  lemma UnwrapSerialized(b: Bundle) returns (ms: Json.Members)
    ensures EncodeFields(Names, ToObject(b)) == Some(ms)
    ensures Unwrap(Serialize(b)) == Some(ms)
  {
    ObjectHasNames(b);
    ms := EncodeFields(Names, ToObject(b)).value;
    NamesPlain();
    EncodedFieldsArePlain(Names, ToObject(b));
    UnwrapWrap(ms);
  }

  lemma DecodeBundle(b: Bundle)
    ensures EncodeFields(Names, ToObject(b)).Some?
    ensures DecodeFields(Names, EncodeFields(Names, ToObject(b)).value) == Some(Values(b))
  {
    ObjectHasNames(b);
    NamesDistinct();
    var o := ToObject(b);
    DecodeEncodeFields(Names, o);
    var vs := DecodeFields(Names, EncodeFields(Names, o).value).value;
    assert |vs| == |Values(b)|;
    forall i | 0 <= i < |Names| ensures vs[i] == Values(b)[i] {
      assert vs[i] == o[Names[i]];
    }
    assert vs == Values(b);
  }

  lemma DeserializeOk(b64: string, ms: Json.Members, vs: seq<Bytes>)
    requires |vs| == 5
    requires Unwrap(b64) == Some(ms) && DecodeFields(Names, ms) == Some(vs)
    ensures Deserialize(b64) == Ok(FromValues(vs))
  {
  }

  /** The bundle `encrypt` serializes. */
  function Seal(c: Suite, plaintext: Data, passphrase: Data, salt1: Bytes, salt2: Bytes, nonce: Bytes): Bundle {
    var s := LibCrypto.Encrypt(c, ToBuffer(plaintext), Key(c, passphrase, salt1, salt2), nonce);
    Bundle(s.ciphertext, salt1, salt2, nonce, s.tag)
  }

  /** `exports.encrypt(plaintext, passphrase)` with a serializer that handles
      the five fields it hands over. */
  function Encrypt(c: Suite, plaintext: Data, passphrase: Data, salt1: Bytes, salt2: Bytes, nonce: Bytes): (bundle: string)
    requires |salt1| == 16 && |salt2| == 32 && |nonce| == 16
    ensures |bundle| >= 2 && bundle[..2] == "ey"
  {
    Serialize(Seal(c, plaintext, passphrase, salt1, salt2, nonce))
  }

  /** The bundle decodes to the sealed fields, and carries the two salts and
      the nonce that were drawn. */
  lemma DeserializeEncrypt(c: Suite, plaintext: Data, passphrase: Data, salt1: Bytes, salt2: Bytes, nonce: Bytes)
    requires |salt1| == 16 && |salt2| == 32 && |nonce| == 16
    ensures Deserialize(Encrypt(c, plaintext, passphrase, salt1, salt2, nonce)) ==
      Ok(Seal(c, plaintext, passphrase, salt1, salt2, nonce))
    ensures var b := Deserialize(Encrypt(c, plaintext, passphrase, salt1, salt2, nonce)).value;
      b.salt1 == salt1 && b.salt2 == salt2 && b.nonce == nonce
  {
    DeserializeSerialize(Seal(c, plaintext, passphrase, salt1, salt2, nonce));
  }

  /** `exports.decrypt(description, passphrase, encoding)`. A malformed
      description fails with 'Invalid description' before the key is derived;
      any failure of the decipher is 'Decryption failed'. */
  function Decrypt(c: Suite, description: string, passphrase: Data, encoding: Option<Encoding>): (r: Result<Output>)
    ensures Deserialize(description).Err? ==> r == Err(InvalidDescription)
    ensures Deserialize(description).Ok? ==>
      var b := Deserialize(description).value;
      var o := LibCrypto.Decrypt(c, b.ciphertext, b.nonce, b.tag, Key(c, passphrase, b.salt1, b.salt2));
      (o.None? ==> r == Err(DecryptionFailed)) && (o.Some? ==> r == Ok(Render(o.value, encoding)))
    ensures r.Err? ==> r.msg == InvalidDescription || r.msg == DecryptionFailed
  {
    match Deserialize(description)
    case Err(_) => Err(InvalidDescription)
    case Ok(b) =>
      var key := Key(c, passphrase, b.salt1, b.salt2);
      match LibCrypto.Decrypt(c, b.ciphertext, b.nonce, b.tag, key)
      case None => Err(DecryptionFailed)
      case Some(p) => Ok(Render(p, encoding))
  }

  /** `decrypt(encrypt(p, w), w)` gives back `p` as bytes, or as its text in
      the requested encoding. */
  lemma DecryptEncrypt(c: Suite, plaintext: Data, passphrase: Data, salt1: Bytes, salt2: Bytes, nonce: Bytes,
                       encoding: Option<Encoding>)
    requires Sound(c) && |salt1| == 16 && |salt2| == 32 && |nonce| == 16
    ensures Decrypt(c, Encrypt(c, plaintext, passphrase, salt1, salt2, nonce), passphrase, encoding) ==
      Ok(Render(ToBuffer(plaintext), encoding))
  {
    DeserializeEncrypt(c, plaintext, passphrase, salt1, salt2, nonce);
    var key := Key(c, passphrase, salt1, salt2);
    LibCrypto.HkdfLength(c, 32, c.slowHash(ToBuffer(passphrase), salt1), salt2, []);
    LibCrypto.DecryptEncrypt(c, ToBuffer(plaintext), key, nonce);
  }

  /** With the `'base64'` encoding the result is the plaintext's base64 text,
      which decodes back to the plaintext. */
  lemma DecryptBase64(c: Suite, plaintext: Data, passphrase: Data, salt1: Bytes, salt2: Bytes, nonce: Bytes)
    requires Sound(c) && |salt1| == 16 && |salt2| == 32 && |nonce| == 16
    ensures var r := Decrypt(c, Encrypt(c, plaintext, passphrase, salt1, salt2, nonce), passphrase, Some(Base64Text));
      r.Ok? && r.value.Decoded? && Base64.Decode(r.value.text) == Some(ToBuffer(plaintext))
  {
    DecryptEncrypt(c, plaintext, passphrase, salt1, salt2, nonce, Some(Base64Text));
    Base64.DecodeEncode(ToBuffer(plaintext));
  }

  /** `decrypt(encrypt(s, w), w, 'utf8')` is the string `s` itself. */
  lemma DecryptUtf8(c: Suite, s: string, passphrase: Data, salt1: Bytes, salt2: Bytes, nonce: Bytes)
    requires Sound(c) && |salt1| == 16 && |salt2| == 32 && |nonce| == 16
    ensures Decrypt(c, Encrypt(c, Text(s), passphrase, salt1, salt2, nonce), passphrase, Some(Utf8Text)) ==
      Ok(Decoded(s))
  {
    DecryptEncrypt(c, Text(s), passphrase, salt1, salt2, nonce, Some(Utf8Text));
    Utf8.ToStringEncode(s);
  }

  // ---- the code as written ----

  /** `exports.encrypt` as written, given a slow hash: it hands `{ ciphertext, salt1,
      salt2, nonce, tag }` to lib/util.js's `serialize`, which destructures
      `salt`. */
  function EncryptAsWritten(c: Suite, plaintext: Data, passphrase: Data, salt1: Bytes, salt2: Bytes, nonce: Bytes): Result<string> {
    LibUtil.Serialize(ToObject(Seal(c, plaintext, passphrase, salt1, salt2, nonce)))
  }

  /** The serializer finds no `salt` property, so every call fails. */
  lemma EncryptAsWrittenFails(c: Suite, plaintext: Data, passphrase: Data, salt1: Bytes, salt2: Bytes, nonce: Bytes)
    ensures EncryptAsWritten(c, plaintext, passphrase, salt1, salt2, nonce) == Err(InvalidDescription)
  {
    assert "salt" !in ToObject(Seal(c, plaintext, passphrase, salt1, salt2, nonce));
  }
}
