/** lib/util.js: the lenient bundle codec. `serialize` reads the four fields it
    destructures and ignores any other property; `deserialize` likewise picks
    the four fields out of the parsed object and ignores the rest. Every
    failure inside either is reported as the one error 'Invalid description'. */
module LibUtil {
  import opened Common
  import Base64
  import Utf8
  import Json
  import opened Codec

  /** `exports.serialize`: `Err` exactly when one of the four fields is missing
      (`Buffer.from(undefined)` throws inside the `try`). */
  function Serialize(o: map<string, Bytes>): (r: Result<string>)
    ensures r.Ok? <==> HasFields(o)
    ensures r.Err? ==> r.msg == InvalidDescription
  {
    HasFieldsIndex(o);
    match EncodeFields(Fields, o)
    case None => Err(InvalidDescription)
    case Some(ms) => Ok(Wrap(ms))
  }

  /** `exports.deserialize`: `Err` when the text is not base64 of a JSON object
      or when one of the four members is missing or not base64. */
  function Deserialize(b64: string): (r: Result<Description>)
    ensures r.Err? ==> r.msg == InvalidDescription
    ensures r.Ok? <==> Unwrap(b64).Some? && DecodeFields(Fields, Unwrap(b64).value).Some?
    ensures r.Ok? ==> DecodeFields(Fields, Unwrap(b64).value) == Some(FieldValues(r.value))
  {
    match Unwrap(b64)
    case None => Err(InvalidDescription)
    case Some(ms) =>
      match DecodeFields(Fields, ms)
      case None => Err(InvalidDescription)
      case Some(vs) =>
        Ok(FromValues(vs))
  }

  // ---- lemmas ----

  /** `deserialize(serialize(o))` gives back the four fields of `o`, whatever
      other properties `o` has. */
  lemma DeserializeSerialize(o: map<string, Bytes>)
    requires HasFields(o)
    ensures Serialize(o).Ok?
    ensures Deserialize(Serialize(o).value) == Ok(FromObject(o))
  {
    HasFieldsIndex(o);
    var ms := EncodeFields(Fields, o).value;
    UnwrapSerialized(o);
    DecodeObject(o);
    DeserializeOk(Serialize(o).value, ms, FieldValues(FromObject(o)));
  }

  lemma UnwrapSerialized(o: map<string, Bytes>)
    requires HasFields(o)
    ensures Serialize(o).Ok? && EncodeFields(Fields, o).Some?
    ensures Unwrap(Serialize(o).value) == Some(EncodeFields(Fields, o).value)
  {
    HasFieldsIndex(o);
    EncodedFieldsArePlain(Fields, o);
    UnwrapWrap(EncodeFields(Fields, o).value);
  }

  lemma DeserializeOk(b64: string, ms: Json.Members, vs: seq<Bytes>)
    requires |vs| == 4
    requires Unwrap(b64) == Some(ms) && DecodeFields(Fields, ms) == Some(vs)
    ensures Deserialize(b64) == Ok(FromValues(vs))
  {
  }

  /** The round trip on a description. */
  lemma DeserializeSerializeDescription(d: Description)
    ensures Serialize(ToObject(d)).Ok?
    ensures Deserialize(Serialize(ToObject(d)).value) == Ok(d)
  {
    FromObjectToObject(d);
    DeserializeSerialize(ToObject(d));
  }

  /** The output is base64 of a text beginning `{"ciphertext"`, so it starts "ey". */
  lemma SerializeStartsWithEy(o: map<string, Bytes>)
    requires Serialize(o).Ok?
    ensures |Serialize(o).value| >= 2 && Serialize(o).value[..2] == "ey"
  {
    WrapStartsWithEy(EncodeFields(Fields, o).value);
  }

  /** The output uses only characters of the base64 alphabet and `=`. */
  lemma SerializeAlphabet(o: map<string, Bytes>)
    requires Serialize(o).Ok?
    ensures forall i :: 0 <= i < |Serialize(o).value| ==> Base64.InAlphabet(Serialize(o).value[i])
  {
    var ms := EncodeFields(Fields, o).value;
    Base64.EncodeAlphabet(Utf8.Encode(Json.Stringify(ms)));
  }

  /** Members other than the four do not change the result, wherever they sit. */
  lemma DeserializeIgnoresExtra(pre: Json.Members, ms: Json.Members, post: Json.Members)
    requires Json.AllPlain(pre + ms + post)
    requires forall j :: 0 <= j < |pre| ==> pre[j].0 !in Fields
    requires forall j :: 0 <= j < |post| ==> post[j].0 !in Fields
    ensures Deserialize(Wrap(pre + ms + post)) == Deserialize(Wrap(ms))
  {
    assert Json.AllPlain(ms) by {
      forall i | 0 <= i < |ms| ensures Json.Plain(ms[i].0) && Json.Plain(ms[i].1) {
        assert (pre + ms + post)[|pre| + i] == ms[i];
      }
    }
    UnwrapWrap(pre + ms + post);
    UnwrapWrap(ms);
    DecodeFieldsAround(Fields, pre, ms, post);
  }

  /** A well-formed object that lacks one of the four fields, such as
      `{"foo":"bar"}`, is refused. */
  lemma DeserializeMissingField(ms: Json.Members, n: string)
    requires Json.AllPlain(ms) && n in Fields
    requires forall j :: 0 <= j < |ms| ==> ms[j].0 != n
    ensures Deserialize(Wrap(ms)) == Err(InvalidDescription)
  {
    UnwrapWrap(ms);
  }

  lemma DeserializeFooBar()
    ensures Deserialize(Wrap([("foo", "bar")])) == Err(InvalidDescription)
  {
    DeserializeMissingField([("foo", "bar")], "ciphertext");
  }
}
