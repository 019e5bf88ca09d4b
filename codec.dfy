/** The steps lib/util.js and app/lib/util.js share: each binary field becomes
    base64 text, the fields become a JSON object, and the JSON text is base64'd
    once more (`toBase64(JSON.stringify({ ... }))`), and the reverse
    (`JSON.parse(fromBase64(b64).toString())`, then `fromBase64` per field). */
module Codec {
  import opened Common
  import Base64
  import Utf8
  import Json

  /** The four-field description of lib/util.js and app/lib/util.js. */
  datatype Description = Description(ciphertext: Bytes, salt: Bytes, nonce: Bytes, tag: Bytes)

  /** The field names, in the order both files destructure and stringify them. */
  const Fields: seq<string> := ["ciphertext", "salt", "nonce", "tag"]

  /** The fields of a description in `Fields` order. */
  function FieldValues(d: Description): (vs: seq<Bytes>)
    ensures |vs| == |Fields|
  {
    [d.ciphertext, d.salt, d.nonce, d.tag]
  }

  /** The description holding four values in `Fields` order. */
  function FromValues(vs: seq<Bytes>): (d: Description)
    requires |vs| == |Fields|
    ensures FieldValues(d) == vs
  {
    Description(vs[0], vs[1], vs[2], vs[3])
  }

  /** The object has all four properties. */
  predicate HasFields(o: map<string, Bytes>) {
    "ciphertext" in o && "salt" in o && "nonce" in o && "tag" in o
  }

  /** The four properties of an object that has them. */
  function FromObject(o: map<string, Bytes>): (d: Description)
    requires HasFields(o)
    ensures ToObject(d) == o <==> o.Keys == set n | n in Fields
  {
    Description(o["ciphertext"], o["salt"], o["nonce"], o["tag"])
  }

  lemma HasFieldsIndex(o: map<string, Bytes>)
    ensures HasFields(o) <==> forall i :: 0 <= i < |Fields| ==> Fields[i] in o
  {
    if "ciphertext" !in o {
      assert Fields[0] !in o;
    } else if "salt" !in o {
      assert Fields[1] !in o;
    } else if "nonce" !in o {
      assert Fields[2] !in o;
    } else if "tag" !in o {
      assert Fields[3] !in o;
    }
  }

  const InvalidDescription: string := "Invalid description"

  /** The description as the JavaScript object callers pass to `serialize`. */
  function ToObject(d: Description): (o: map<string, Bytes>)
    ensures o.Keys == set n | n in Fields
  {
    map["ciphertext" := d.ciphertext, "salt" := d.salt, "nonce" := d.nonce, "tag" := d.tag]
  }

  /** Reading the four properties back from a description's object gives the description. */
  lemma FromObjectToObject(d: Description)
    ensures HasFields(ToObject(d)) && FromObject(ToObject(d)) == d
  {
    var o := ToObject(d);
    assert o["ciphertext"] == d.ciphertext && o["salt"] == d.salt && o["nonce"] == d.nonce && o["tag"] == d.tag;
  }

  predicate Distinct(names: seq<string>) {
    forall i, j :: 0 <= i < j < |names| ==> names[i] != names[j]
  }

  /** `toBase64` of each named property, as JSON members in `names` order; `None`
      when a property is missing (`Buffer.from(undefined)` throws). */
  function EncodeFields(names: seq<string>, o: map<string, Bytes>): (r: Option<Json.Members>)
    ensures r.Some? <==> forall i :: 0 <= i < |names| ==> names[i] in o
    ensures r.Some? ==> (|r.value| == |names| &&
      forall i :: 0 <= i < |names| ==> r.value[i] == (names[i], Base64.Encode(o[names[i]])))
  {
    if forall i :: 0 <= i < |names| ==> names[i] in o then
      Some(seq(|names|, i requires 0 <= i < |names| => (names[i], Base64.Encode(o[names[i]]))))
    else None
  }

  /** The member `k` exists and holds canonical base64. */
  predicate Present(ms: Json.Members, k: string) {
    Json.Get(ms, k).Some? && Base64.Decode(Json.Get(ms, k).value).Some?
  }

  /** `fromBase64` of each named member of a parsed object, in `names` order;
      `None` when a member is missing or is not canonical base64. */
  function DecodeFields(names: seq<string>, ms: Json.Members): (r: Option<seq<Bytes>>)
    ensures r.Some? ==> (|r.value| == |names| &&
      forall i :: 0 <= i < |names| ==>
        Json.Get(ms, names[i]).Some? && Base64.Decode(Json.Get(ms, names[i]).value) == Some(r.value[i]))
    ensures r.None? ==> exists i :: 0 <= i < |names| && !Present(ms, names[i])
  {
    if forall i :: 0 <= i < |names| ==> Present(ms, names[i])
    then Some(seq(|names|, i requires 0 <= i < |names| => Base64.Decode(Json.Get(ms, names[i]).value).value))
    else None
  }

  /** `toBase64(JSON.stringify(object))`. */
  function Wrap(ms: Json.Members): string {
    Base64.Encode(Utf8.Encode(Json.Stringify(ms)))
  }

  /** `JSON.parse(fromBase64(b64).toString())` for a flat object; `None` where it throws. */
  function Unwrap(b64: string): Option<Json.Members> {
    match Base64.Decode(b64)
    case None => None
    case Some(bytes) => Json.Parse(Utf8.ToString(bytes))
  }

  // ---- lemmas ----

  /** Base64 text needs no JSON escaping. */
  lemma Base64IsPlain(b: Bytes)
    ensures Json.Plain(Base64.Encode(b))
  {
    Base64.EncodeAlphabet(b);
  }

  lemma EncodedFieldsArePlain(names: seq<string>, o: map<string, Bytes>)
    requires forall i :: 0 <= i < |names| ==> Json.Plain(names[i])
    requires EncodeFields(names, o).Some?
    ensures Json.AllPlain(EncodeFields(names, o).value)
  {
    forall i | 0 <= i < |names| ensures Json.Plain(EncodeFields(names, o).value[i].1) {
      Base64IsPlain(o[names[i]]);
    }
  }

  /** Unwrapping a wrapped object gives back exactly its members. */
  lemma UnwrapWrap(ms: Json.Members)
    requires Json.AllPlain(ms)
    ensures Unwrap(Wrap(ms)) == Some(ms)
  {
    var text := Json.Stringify(ms);
    Base64.DecodeEncode(Utf8.Encode(text));
    Utf8.ToStringEncode(text);
    Json.ParseStringify(ms);
  }

  /** With distinct keys, the lookup of a member's key finds that member. */
  lemma {:induction false} GetUnique(ms: Json.Members, i: nat)
    requires i < |ms|
    requires forall j :: 0 <= j < |ms| && j != i ==> ms[j].0 != ms[i].0
    ensures Json.Get(ms, ms[i].0) == Some(ms[i].1)
  {
    if i > 0 {
      GetUnique(ms[1..], i - 1);
    } else {
      assert forall j :: 0 <= j < |ms[1..]| ==> ms[1..][j].0 != ms[0].0 by {
        forall j | 0 <= j < |ms[1..]| ensures ms[1..][j].0 != ms[0].0 {
          assert ms[1..][j] == ms[j + 1];
        }
      }
    }
  }

  /** Decoding the members that `EncodeFields` wrote gives back every field. */
  lemma DecodeEncodeFields(names: seq<string>, o: map<string, Bytes>)
    requires Distinct(names)
    requires EncodeFields(names, o).Some?
    ensures DecodeFields(names, EncodeFields(names, o).value).Some?
    ensures forall i :: 0 <= i < |names| ==>
      DecodeFields(names, EncodeFields(names, o).value).value[i] == o[names[i]]
  {
    var ms := EncodeFields(names, o).value;
    forall i | 0 <= i < |names|
      ensures Json.Get(ms, names[i]) == Some(Base64.Encode(o[names[i]]))
      ensures Base64.Decode(Base64.Encode(o[names[i]])) == Some(o[names[i]])
    {
      GetUnique(ms, i);
      Base64.DecodeEncode(o[names[i]]);
    }
    var r := DecodeFields(names, ms);
    assert r.Some?;
    forall i | 0 <= i < |names| ensures r.value[i] == o[names[i]] {
      assert Base64.Decode(Json.Get(ms, names[i]).value) == Some(r.value[i]);
    }
  }

  /** Members appended after the named ones do not change how a named one is
      looked up, provided their keys differ from all the names. */
  lemma {:induction false} GetAppend(ms: Json.Members, extra: Json.Members, k: string)
    requires forall j :: 0 <= j < |extra| ==> extra[j].0 != k
    ensures Json.Get(ms + extra, k) == Json.Get(ms, k)
    decreases |ms|
  {
    if ms == [] {
      assert ms + extra == extra;
    } else {
      assert (ms + extra)[1..] == ms[1..] + extra;
      GetAppend(ms[1..], extra, k);
    }
  }

  /** Members placed before the named ones do not change a lookup either:
      the last member with the key still wins. */
  lemma {:induction false} GetPrepend(pre: Json.Members, ms: Json.Members, k: string)
    requires forall j :: 0 <= j < |pre| ==> pre[j].0 != k
    ensures Json.Get(pre + ms, k) == Json.Get(ms, k)
    decreases |pre|
  {
    if pre == [] {
      assert pre + ms == ms;
    } else {
      assert (pre + ms)[1..] == pre[1..] + ms;
      GetPrepend(pre[1..], ms, k);
    }
  }

  /** Members under other keys, wherever they sit, do not change the decoded fields. */
  lemma DecodeFieldsAround(names: seq<string>, pre: Json.Members, ms: Json.Members, post: Json.Members)
    requires forall j, i :: 0 <= j < |pre| && 0 <= i < |names| ==> pre[j].0 != names[i]
    requires forall j, i :: 0 <= j < |post| && 0 <= i < |names| ==> post[j].0 != names[i]
    ensures DecodeFields(names, pre + ms + post) == DecodeFields(names, ms)
  {
    forall i | 0 <= i < |names| ensures Json.Get(pre + ms + post, names[i]) == Json.Get(ms, names[i]) {
      GetAppend(pre + ms, post, names[i]);
      GetPrepend(pre, ms, names[i]);
    }
    var a, b := DecodeFields(names, pre + ms + post), DecodeFields(names, ms);
    if a.Some? {
      assert b.Some?;
      assert |a.value| == |b.value|;
      forall i | 0 <= i < |names| ensures a.value[i] == b.value[i] {
        assert Base64.Decode(Json.Get(ms, names[i]).value) == Some(b.value[i]);
      }
      assert a.value == b.value;
    } else {
      assert b.None?;
    }
  }

  /** `JSON.stringify` of an object whose first key is `ciphertext` starts `{"c`. */
  lemma StringifyHead(ms: Json.Members)
    requires ms != [] && ms[0].0 == "ciphertext"
    ensures |Json.Stringify(ms)| >= 3 && Json.Stringify(ms)[..3] == "{\"c"
  {
    var b := Json.Body(ms);
    var q := Json.Quote("ciphertext");
    if |ms| == 1 {
      assert b == q + (":" + Json.Quote(ms[0].1));
    } else {
      assert b == q + (":" + Json.Quote(ms[0].1) + "," + Json.Body(ms[1..]));
    }
    assert b[..2] == "\"c";
  }

  /** The UTF-8 bytes of a text that starts `{"c` start 123, 34, 99. */
  lemma Utf8Head(text: string)
    requires |text| >= 3 && text[..3] == "{\"c"
    ensures |Utf8.Encode(text)| >= 3 && Utf8.Encode(text)[..3] == [123, 34, 99]
  {
    assert text == "{\"c" + text[3..];
    Utf8.EncodeAppend("{\"c", text[3..]);
    assert Utf8.Encode("{\"c") == [123, 34, 99];
  }

  /** A wrapped object whose first member is `ciphertext` begins with "ey",
      the base64 of `{"`. */
  lemma WrapStartsWithEy(ms: Json.Members)
    requires ms != [] && ms[0].0 == "ciphertext"
    ensures |Wrap(ms)| >= 2 && Wrap(ms)[..2] == "ey"
  {
    var text := Json.Stringify(ms);
    StringifyHead(ms);
    Utf8Head(text);
    var bytes := Utf8.Encode(text);
    Base64.EncodeStart(bytes);
    var g := Base64.EncodeGroup(bytes[..3]);
    assert g[0] == Base64.Char(30) && g[1] == Base64.Char(50);
  }

  /** Decoding the members written for an object with the four fields gives
      back its four values, in order. */
  lemma DecodeObject(o: map<string, Bytes>)
    requires HasFields(o)
    ensures EncodeFields(Fields, o).Some?
    ensures DecodeFields(Fields, EncodeFields(Fields, o).value) == Some(FieldValues(FromObject(o)))
  {
    HasFieldsIndex(o);
    FieldsDistinct();
    DecodeAll(Fields, o);
    FieldValuesInOrder(o);
  }

  lemma FieldsDistinct()
    ensures Distinct(Fields)
  {
  }

  lemma FieldValuesInOrder(o: map<string, Bytes>)
    requires HasFields(o)
    ensures forall i :: 0 <= i < |Fields| ==> Fields[i] in o
    ensures FieldValues(FromObject(o)) == seq(|Fields|, i requires 0 <= i < |Fields| && Fields[i] in o => o[Fields[i]])
  {
    HasFieldsIndex(o);
  }

  /** The decoded values are the object's values at the names, in order. */
  lemma DecodeAll(names: seq<string>, o: map<string, Bytes>)
    requires Distinct(names)
    requires forall i :: 0 <= i < |names| ==> names[i] in o
    ensures EncodeFields(names, o).Some?
    ensures DecodeFields(names, EncodeFields(names, o).value) ==
      Some(seq(|names|, i requires 0 <= i < |names| && names[i] in o => o[names[i]]))
  {
    DecodeEncodeFields(names, o);
    var vs := DecodeFields(names, EncodeFields(names, o).value).value;
    var want := seq(|names|, i requires 0 <= i < |names| && names[i] in o => o[names[i]]);
    assert |vs| == |want|;
    forall i | 0 <= i < |names| ensures vs[i] == want[i] {
    }
    assert vs == want;
  }
}
