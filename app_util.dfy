/** app/lib/util.js: the strict bundle codec, the parameter validators, and
    the length-prefixed framing the app's socket protocol uses. */
module AppUtil {
  import opened Common
  import Base64
  import Utf8
  import Json
  import Js
  import opened Codec

  const FieldSet: set<string> := {"ciphertext", "salt", "nonce", "tag"}

  // ---- validators ----

  const UnexpectedParameters: string := "Unexpected parameters"

  /** `validateRest(rest)`: throws when `rest` has any key. */
  function ValidateRest(rest: set<string>): (r: Result<Unit>)
    ensures r.Ok? <==> rest == {}
    ensures r.Err? ==> r.msg == UnexpectedParameters
  {
    if rest != {} then Err(UnexpectedParameters) else Ok(Unit)
  }

  /** `validateFilename`: a non-empty string. */
  function ValidateFilename(v: Js.Value): (r: Result<Unit>)
    ensures r.Ok? <==> v.Str? && v.s != ""
    ensures r.Err? ==> r.msg == "Expected filename to be a non-empty string"
  {
    if !Js.Truthy(v) || !v.Str? then Err("Expected filename to be a non-empty string") else Ok(Unit)
  }

  /** `validatePassword`: a non-empty string. */
  function ValidatePassword(v: Js.Value): (r: Result<Unit>)
    ensures r.Ok? <==> v.Str? && v.s != ""
    ensures r.Err? ==> r.msg == "Expected password to be a non-empty string"
  {
    if !Js.Truthy(v) || !v.Str? then Err("Expected password to be a non-empty string") else Ok(Unit)
  }

  /** `validatePlaintext`: a buffer with at least one byte, or a non-empty string. */
  function ValidatePlaintext(v: Js.Value): (r: Result<Unit>)
    ensures r.Ok? <==> (exists b: Bytes :: |b| > 0 && v == Js.Buffer(b)) ||
                       (exists s: string :: s != "" && v == Js.Str(s))
    ensures r.Err? ==> r.msg == "Expected plaintext to be a non-empty buffer or string"
  {
    var isBuffer := v.Buffer? && |v.bytes| != 0;
    var isString := v.Str? && v.s != "";
    if !(isBuffer || isString) then Err("Expected plaintext to be a non-empty buffer or string")
    else Ok(Unit)
  }

  // ---- strict bundle codec ----

  /** `exports.serialize`: validates that the object has no property beyond the
      four, then encodes them; every failure is 'Invalid description'. */
  function Serialize(o: map<string, Bytes>): (r: Result<string>)
    ensures r.Ok? <==> o.Keys == FieldSet
    ensures r.Err? ==> r.msg == InvalidDescription
  {
    HasFieldsIndex(o);
    if ValidateRest(o.Keys - FieldSet).Err? then Err(InvalidDescription)
    else
      match EncodeFields(Fields, o)
      case None => Err(InvalidDescription)
      case Some(ms) => Ok(Wrap(ms))
  }

  /** `exports.deserialize`: the parsed object must have no key beyond the four,
      and each of them must be base64. */
  function Deserialize(b64: string): (r: Result<Description>)
    ensures r.Err? ==> r.msg == InvalidDescription
    ensures r.Ok? <==> Unwrap(b64).Some? && OnlyFields(Unwrap(b64).value) &&
                       DecodeFields(Fields, Unwrap(b64).value).Some?
    ensures r.Ok? ==> DecodeFields(Fields, Unwrap(b64).value) == Some(FieldValues(r.value))
  {
    match Unwrap(b64)
    case None => Err(InvalidDescription)
    case Some(ms) =>
      RestOfParsed(ms);
      if ValidateRest(Json.Keys(ms) - FieldSet).Err? then Err(InvalidDescription)
      else
        match DecodeFields(Fields, ms)
        case None => Err(InvalidDescription)
        case Some(vs) =>
          Ok(FromValues(vs))
  }

  /** Every member of the parsed object is one of the four fields. */
  predicate OnlyFields(ms: Json.Members) {
    forall i :: 0 <= i < |ms| ==> ms[i].0 in FieldSet
  }

  /** The `...rest` of a parsed object is empty exactly when it has only the four fields. */
  lemma RestOfParsed(ms: Json.Members)
    ensures Json.Keys(ms) - FieldSet == {} <==> OnlyFields(ms)
  {
    if !OnlyFields(ms) {
      var i :| 0 <= i < |ms| && ms[i].0 !in FieldSet;
      assert ms[i].0 in Json.Keys(ms) - FieldSet;
    }
  }

  lemma FieldSetIsFields()
    ensures FieldSet == set n | n in Fields
  {
    assert Fields[0] == "ciphertext" && Fields[1] == "salt" && Fields[2] == "nonce" && Fields[3] == "tag";
  }

  /** The members `serialize` writes are the four fields and nothing else. */
  lemma EncodedOnlyFields(o: map<string, Bytes>)
    requires EncodeFields(Fields, o).Some?
    ensures OnlyFields(EncodeFields(Fields, o).value)
  {
    FieldSetIsFields();
  }

  lemma UnwrapSerialized(o: map<string, Bytes>)
    requires o.Keys == FieldSet
    ensures Serialize(o).Ok? && EncodeFields(Fields, o).Some?
    ensures Unwrap(Serialize(o).value) == Some(EncodeFields(Fields, o).value)
  {
    HasFieldsIndex(o);
    EncodedFieldsArePlain(Fields, o);
    UnwrapWrap(EncodeFields(Fields, o).value);
  }

  lemma DeserializeOk(b64: string, ms: Json.Members, vs: seq<Bytes>)
    requires |vs| == 4
    requires Unwrap(b64) == Some(ms) && OnlyFields(ms) && DecodeFields(Fields, ms) == Some(vs)
    ensures Deserialize(b64) == Ok(FromValues(vs))
  {
  }

  /** For an object with exactly the four fields, `deserialize` undoes `serialize`. */
  lemma DeserializeSerialize(o: map<string, Bytes>)
    requires o.Keys == FieldSet
    ensures Serialize(o).Ok?
    ensures Deserialize(Serialize(o).value) == Ok(FromObject(o))
  {
    var ms := EncodeFields(Fields, o).value;
    UnwrapSerialized(o);
    DecodeObject(o);
    EncodedOnlyFields(o);
    DeserializeOk(Serialize(o).value, ms, FieldValues(FromObject(o)));
  }

  lemma DeserializeSerializeDescription(d: Description)
    ensures Serialize(ToObject(d)).Ok?
    ensures Deserialize(Serialize(ToObject(d)).value) == Ok(d)
  {
    FieldSetIsFields();
    FromObjectToObject(d);
    DeserializeSerialize(ToObject(d));
  }

  /** A bundle whose object has a member beyond the four is refused, whatever
      the other members are. */
  lemma DeserializeRejectsExtra(ms: Json.Members, j: nat)
    requires Json.AllPlain(ms)
    requires j < |ms| && ms[j].0 !in FieldSet
    ensures Deserialize(Wrap(ms)) == Err(InvalidDescription)
  {
    UnwrapWrap(ms);
  }

  // ---- framing ----

  const MaxUInt16: nat := 65535

  /** The two big-endian bytes of `n`, as `writeUInt16BE` writes them. */
  function UInt16BE(n: nat): (b: Bytes)
    requires n <= MaxUInt16
    ensures |b| == 2 && b[0] as int * 256 + b[1] as int == n
  {
    [n / 256, n % 256]
  }

  /** `exports.encode(msg)` where `json` is `JSON.stringify(msg)`: the UTF-8
      byte length as a 16-bit big-endian prefix, then the bytes.
      `writeUInt16BE` throws a `RangeError` above 65535. */
  function Encode(json: string): (r: Result<Bytes>)
    ensures r.Ok? <==> |Utf8.Encode(json)| <= MaxUInt16
    ensures r.Ok? ==> |r.value| == 2 + |Utf8.Encode(json)| &&
                      r.value[0] as int * 256 + r.value[1] as int == |Utf8.Encode(json)| &&
                      r.value[2..] == Utf8.Encode(json)
  {
    var msg := Utf8.Encode(json);
    if |msg| > MaxUInt16 then Err("The value of \"value\" is out of range.")
    else Ok(UInt16BE(|msg|) + msg)
  }

  /** Size of the decoder's buffer (`Buffer.alloc(4096)`). */
  const BufferSize: nat := 4096

  const Oversized: string := "Message length exceeds buffer size"

  /** What one `'data'` event leads to. */
  datatype Event =
    | Quiet
    | Emit(payload: Bytes)
    | Destroy(error: string)

  /** The decoder's closure state: the buffer contents, `idx` and `len`. */
  datatype Frame = Frame(buf: seq<byte>, idx: nat, len: nat)

  function Min(a: int, b: int): int {
    if a <= b then a else b
  }

  /** `src.copy(target, at)`: as many bytes of `src` as fit from `at` on. */
  function CopyInto(target: seq<byte>, src: seq<byte>, at: nat): (r: seq<byte>)
    ensures |r| == |target|
    ensures forall i :: 0 <= i < |r| ==> r[i] == if at <= i < at + |src| then src[i - at] else target[i]
  {
    seq(|target|, i requires 0 <= i < |target| => if at <= i < at + |src| then src[i - at] else target[i])
  }

  /** `buf.fill(0, from)`. */
  function FillZero(b: seq<byte>, from: nat): (r: seq<byte>)
    ensures |r| == |b|
    ensures forall i :: 0 <= i < |r| ==> r[i] == if i < from then b[i] else 0
  {
    seq(|b|, i requires 0 <= i < |b| => if i < from then b[i] else 0)
  }

  function Zeros(n: nat): (r: seq<byte>)
    ensures |r| == n && forall i :: 0 <= i < n ==> r[i] == 0
  {
    seq(n, _ => 0)
  }

  /** `chunk.copy(buf, idx)` and `idx += chunk.length`: the copy stops at the
      end of the buffer, but `idx` counts every byte received. */
  function Receive(f: Frame, chunk: Bytes): (g: Frame)
    ensures |g.buf| == |f.buf| && g.len == f.len
  {
    Frame(CopyInto(f.buf, chunk, f.idx), f.idx + |chunk|, f.len)
  }

  /** The big-endian length at the front of the buffer (`buf.readUInt16BE()`). */
  function Header(b: seq<byte>): nat
    requires |b| >= 2
  {
    b[0] as int * 256 + b[1] as int
  }

  /** Draining a complete frame: its payload is emitted, the bytes after it
      move to the front, `idx` drops by the frame size, the rest of the buffer
      is zeroed and `len` resets. */
  function Deliver(h: Frame): (r: (Frame, Event))
    requires |h.buf| == BufferSize
    ensures |r.0.buf| == BufferSize
    ensures !(h.len != 0 && 2 + h.len <= h.idx) ==> r == (h, Quiet)
    ensures h.len != 0 && 2 + h.len <= h.idx ==>
      var end := Min(2 + h.len, BufferSize);
      && r.1 == Emit(h.buf[2..end])
      && r.0.idx == h.idx - (2 + h.len) && r.0.len == 0
      && (forall i :: 0 <= i < BufferSize && end + i < Min(h.idx, BufferSize) && i < r.0.idx ==>
            r.0.buf[i] == h.buf[end + i])
      && (forall i :: r.0.idx <= i < BufferSize ==> r.0.buf[i] == 0)
  {
    if h.len != 0 && 2 + h.len <= h.idx then
      var start := Min(2 + h.len, BufferSize);
      var moved := if 2 + h.len < h.idx then CopyInto(h.buf, h.buf[start..Min(h.idx, BufferSize)], 0) else h.buf;
      var idx2 := h.idx - (2 + h.len);
      (Frame(FillZero(moved, idx2), idx2, 0), Emit(h.buf[2..start]))
    else
      (h, Quiet)
  }

  /** The handler of one `'data'` event with `chunk`, as a function of the
      closure state before it: the state after it and what it does. At most
      one message is emitted per event, and never an empty one (a header
      announcing zero bytes is not delivered). The connection is destroyed
      exactly when a header is read in this event and announces a frame larger
      than the buffer. */
  function Step(f: Frame, chunk: Bytes): (r: (Frame, Event))
    requires |f.buf| == BufferSize
    ensures |r.0.buf| == BufferSize
    ensures r.1.Emit? ==> |r.1.payload| > 0
    ensures r.1.Destroy? <==>
      f.len == 0 && f.idx + |chunk| >= 2 && 2 + Header(Receive(f, chunk).buf) > BufferSize
    ensures r.1.Destroy? ==> r.1.error == Oversized && r.0.idx == f.idx + |chunk|
  {
    var g := Receive(f, chunk);
    if g.len == 0 && g.idx >= 2 then
      var h := Frame(g.buf, g.idx, Header(g.buf));
      if 2 + h.len > BufferSize then (h, Destroy(Oversized)) else Deliver(h)
    else Deliver(g)
  }

  /** The state `decoder(conn)` starts in. */
  function Fresh(): Frame {
    Frame(Zeros(BufferSize), 0, 0)
  }

  /** A buffer holding `s` at the front and zeros after it. */
  function Padded(s: seq<byte>): (b: seq<byte>)
    requires |s| <= BufferSize
    ensures |b| == BufferSize && b[..|s|] == s
  {
    s + Zeros(BufferSize - |s|)
  }

  lemma CopyIntoPadded(s: seq<byte>, t: seq<byte>)
    requires |s| + |t| <= BufferSize
    ensures CopyInto(Padded(s), t, |s|) == Padded(s + t)
  {
    var l, r := CopyInto(Padded(s), t, |s|), Padded(s + t);
    forall i | 0 <= i < BufferSize ensures l[i] == r[i] {
      if i < |s| {
        assert r[i] == (s + t)[i];
      } else if i < |s| + |t| {
        assert r[i] == (s + t)[i];
      }
    }
    assert l == r;
  }

  /** The header of a buffer that starts with an encoded length is that length. */
  lemma HeaderOf(n: nat, tail: seq<byte>)
    requires n <= MaxUInt16 && 2 + |tail| <= BufferSize
    ensures Header(Padded(UInt16BE(n) + tail)) == n
  {
    var b := Padded(UInt16BE(n) + tail);
    assert b[0] == UInt16BE(n)[0] && b[1] == UInt16BE(n)[1];
  }

  lemma DeliverFrame(p: Bytes, rest: Bytes)
    requires 0 < |p| && 2 + |p| + |rest| <= BufferSize
    ensures var chunk := UInt16BE(|p|) + p + rest;
      Deliver(Frame(Padded(chunk), |chunk|, |p|)) == (Frame(Padded(rest), |rest|, 0), Emit(p))
  {
    var chunk := UInt16BE(|p|) + p + rest;
    var h := Frame(Padded(chunk), |chunk|, |p|);
    var start := 2 + |p|;
    assert h.buf[..|chunk|] == chunk;
    assert h.buf[2..start] == p;
    var r := Deliver(h);
    assert r.1 == Emit(p);
    assert r.0.idx == |rest| && r.0.len == 0;
    forall i | 0 <= i < BufferSize ensures r.0.buf[i] == Padded(rest)[i] {
      if i < |rest| {
        assert start + i < Min(h.idx, BufferSize);
        assert r.0.buf[i] == h.buf[start + i];
        assert h.buf[start + i] == chunk[start + i] == rest[i];
        assert Padded(rest)[i] == rest[i];
      } else {
        assert r.0.buf[i] == 0;
      }
    }
    assert r.0.buf == Padded(rest);
  }

  /** A frame in one chunk, possibly followed by the start of the next frame:
      the payload is emitted and the following bytes are kept at the front. */
  lemma StepFrame(p: Bytes, rest: Bytes)
    requires 0 < |p| && 2 + |p| + |rest| <= BufferSize
    ensures Step(Fresh(), UInt16BE(|p|) + p + rest) == (Frame(Padded(rest), |rest|, 0), Emit(p))
  {
    var chunk := UInt16BE(|p|) + p + rest;
    CopyIntoPadded([], chunk);
    assert Zeros(BufferSize) == Padded([]);
    assert Receive(Fresh(), chunk) == Frame(Padded(chunk), |chunk|, 0);
    HeaderOf(|p|, p + rest);
    assert UInt16BE(|p|) + (p + rest) == chunk;
    DeliverFrame(p, rest);
  }

  /** What `encode` writes, delivered as one chunk to a fresh decoder, is
      emitted as the UTF-8 of the JSON text, and the decoder is fresh again. */
  lemma StepEncoded(json: string)
    requires 0 < |Utf8.Encode(json)| <= BufferSize - 2
    ensures Encode(json).Ok?
    ensures Step(Fresh(), Encode(json).value) == (Fresh(), Emit(Utf8.Encode(json)))
  {
    var p := Utf8.Encode(json);
    StepFrame(p, []);
    assert UInt16BE(|p|) + p + [] == Encode(json).value;
    assert Padded([]) == Zeros(BufferSize);
  }

  /** A frame split across two chunks at any point: nothing is emitted for the
      first part, and the payload is emitted once the rest arrives. */
  lemma StepSplitFrame(p: Bytes, k: nat)
    requires 0 < |p| && 2 + |p| <= BufferSize && k < 2 + |p|
    ensures var frame := UInt16BE(|p|) + p;
      var (g, e1) := Step(Fresh(), frame[..k]);
      e1 == Quiet && Step(g, frame[k..]) == (Fresh(), Emit(p))
  {
    var frame := UInt16BE(|p|) + p;
    var a, b := frame[..k], frame[k..];
    assert Zeros(BufferSize) == Padded([]);
    CopyIntoPadded([], a);
    var g1 := Receive(Fresh(), a);
    assert g1 == Frame(Padded(a), k, 0);
    CopyIntoPadded(a, b);
    assert a + b == frame;
    var g := Step(Fresh(), a).0;
    if k >= 2 {
      assert g1.buf[0] == frame[0] && g1.buf[1] == frame[1];
      assert g == Frame(Padded(a), k, |p|);
    } else {
      assert g == Frame(Padded(a), k, 0);
    }
    var g2 := Receive(g, b);
    assert g2.buf == Padded(frame);
    assert g2.buf[0] == frame[0] && g2.buf[1] == frame[1];
    var h := Frame(g2.buf, 2 + |p|, |p|);
    assert h.buf[2..2 + |p|] == p;
    assert FillZero(h.buf, 0) == Zeros(BufferSize);
  }

  /** The closure `decoder(conn)` installs, with its buffer updated in place. */
  class Decoder {
    const buf: array<byte>
    var idx: nat
    var len: nat

    ghost predicate Valid()
      reads this
    {
      buf.Length == BufferSize
    }

    function State(): Frame
      reads this, buf
    {
      Frame(buf[..], idx, len)
    }

    constructor ()
      ensures Valid() && State() == Fresh()
      ensures fresh(buf)
    {
      buf := new byte[BufferSize](_ => 0);
      idx := 0;
      len := 0;
      new;
      assert buf[..] == Zeros(BufferSize);
    }

    /** The `'data'` handler. */
    method OnData(chunk: Bytes) returns (e: Event)
      requires Valid()
      modifies this, buf
      ensures Valid()
      ensures (State(), e) == Step(old(State()), chunk)
    {
      ghost var f := State();
      CopyChunk(chunk);
      assert State() == Receive(f, chunk);
      if len == 0 && idx >= 2 {
        len := Header(buf[..]);
        if 2 + len > BufferSize {
          return Destroy(Oversized);
        }
      }
      e := Drain();
    }

    /** `chunk.copy(buf, idx)` and `idx += chunk.length`. */
    method CopyChunk(chunk: Bytes)
      requires Valid()
      modifies this, buf
      ensures Valid()
      ensures State() == Receive(old(State()), chunk)
    {
      ghost var f := State();
      var n := if idx < BufferSize then Min(|chunk|, BufferSize - idx) else 0;
      var k := 0;
      while k < n
        modifies buf
        invariant 0 <= k <= n
        invariant forall i :: 0 <= i < BufferSize ==>
          buf[i] == if idx <= i < idx + k then chunk[i - idx] else f.buf[i]
      {
        buf[idx + k] := chunk[k];
        k := k + 1;
      }
      assert forall i :: 0 <= i < BufferSize ==> buf[..][i] == CopyInto(f.buf, chunk, idx)[i];
      assert buf[..] == CopyInto(f.buf, chunk, idx);
      idx := idx + |chunk|;
    }

    /** The second `if` of the handler: emit and drain a complete frame. */
    method Drain() returns (e: Event)
      requires Valid()
      modifies this, buf
      ensures Valid()
      ensures (State(), e) == Deliver(old(State()))
    {
      if len != 0 && 2 + len <= idx {
        var start := Min(2 + len, BufferSize);
        e := Emit(buf[2..start]);
        if 2 + len < idx {
          MoveToFront(start, Min(idx, BufferSize));
        }
        idx := idx - (2 + len);
        ZeroFrom(idx);
        len := 0;
      } else {
        e := Quiet;
      }
    }

    /** `buf.slice(start, stop).copy(buf)`. */
    method MoveToFront(start: nat, stop: nat)
      requires Valid() && 0 < start <= stop <= BufferSize
      modifies buf
      ensures buf[..] == CopyInto(old(buf[..]), old(buf[..])[start..stop], 0)
    {
      ghost var b := buf[..];
      var k := 0;
      while k < stop - start
        invariant 0 <= k <= stop - start
        invariant forall i :: 0 <= i < k ==> buf[i] == b[start + i]
        invariant forall i :: k <= i < BufferSize ==> buf[i] == b[i]
      {
        buf[k] := buf[start + k];
        k := k + 1;
      }
      assert forall i :: 0 <= i < BufferSize ==> buf[..][i] == CopyInto(b, b[start..stop], 0)[i];
    }

    /** `buf.fill(0, from)`. */
    method ZeroFrom(from: nat)
      requires Valid()
      modifies buf
      ensures buf[..] == FillZero(old(buf[..]), from)
    {
      ghost var b := buf[..];
      var k := Min(from, BufferSize);
      while k < BufferSize
        invariant Min(from, BufferSize) <= k <= BufferSize
        invariant forall i :: 0 <= i < BufferSize ==> buf[i] == if from <= i < k then 0 else b[i]
      {
        buf[k] := 0;
        k := k + 1;
      }
      assert forall i :: 0 <= i < BufferSize ==> buf[..][i] == FillZero(b, from)[i];
    }
  }
}
