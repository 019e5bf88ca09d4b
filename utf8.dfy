/** UTF-8 as Node's `Buffer` applies it: `Buffer.from(s)` is `Encode`, and
    `buf.toString()` is `ToString`, which replaces an ill-formed byte with U+FFFD. */
module Utf8 {
  import opened Common

  predicate IsContinuation(x: byte) {
    0x80 <= x < 0xC0
  }

  /** The one to four bytes of a scalar value. */
  function EncodeChar(c: char): (b: Bytes)
    ensures 1 <= |b| <= 4
    ensures forall i :: 1 <= i < |b| ==> IsContinuation(b[i])
  {
    var cp := c as int;
    if cp < 0x80 then [cp]
    else if cp < 0x800 then [0xC0 + cp / 64, 0x80 + cp % 64]
    else if cp < 0x10000 then [0xE0 + cp / 4096, 0x80 + (cp / 64) % 64, 0x80 + cp % 64]
    else [0xF0 + cp / 262144, 0x80 + (cp / 4096) % 64, 0x80 + (cp / 64) % 64, 0x80 + cp % 64]
  }

  /** `Buffer.from(s)` (the default `'utf8'` encoding). */
  function Encode(s: string): (b: Bytes)
    ensures |b| >= |s|
  {
    if s == [] then [] else EncodeChar(s[0]) + Encode(s[1..])
  }

  predicate IsScalar(cp: int) {
    (0 <= cp < 0xD800) || (0xE000 <= cp < 0x110000)
  }

  /** The well-formed sequence at the front of `b`, if there is one: the
      character and how many bytes it takes. Overlong forms, surrogates and
      values above U+10FFFF are refused. */
  function DecodeFirst(b: Bytes): (r: Option<(char, nat)>)
    requires |b| > 0
    ensures r.Some? ==> 1 <= r.value.1 <= |b| && r.value.1 <= 4
  {
    var b0: int := b[0];
    if b0 < 0x80 then Some((b0 as char, 1))
    else if 0xC0 <= b0 < 0xE0 && |b| >= 2 && IsContinuation(b[1]) then
      var cp := (b0 - 0xC0) * 64 + (b[1] as int - 0x80);
      if cp >= 0x80 then Some((cp as char, 2)) else None
    else if 0xE0 <= b0 < 0xF0 && |b| >= 3 && IsContinuation(b[1]) && IsContinuation(b[2]) then
      var cp := (b0 - 0xE0) * 4096 + (b[1] as int - 0x80) * 64 + (b[2] as int - 0x80);
      if cp >= 0x800 && IsScalar(cp) then Some((cp as char, 3)) else None
    else if 0xF0 <= b0 < 0xF8 && |b| >= 4 && IsContinuation(b[1]) && IsContinuation(b[2])
            && IsContinuation(b[3]) then
      var cp := (b0 - 0xF0) * 262144 + (b[1] as int - 0x80) * 4096 + (b[2] as int - 0x80) * 64 + (b[3] as int - 0x80);
      if 0x10000 <= cp < 0x110000 then Some((cp as char, 4)) else None
    else None
  }

  const Replacement: char := 0xFFFD as char

  /** `buf.toString()`: decodes well-formed sequences and puts U+FFFD for each
      byte that does not start one. */
  function ToString(b: Bytes): (s: string)
    ensures |s| <= |b|
    decreases |b|
  {
    if b == [] then ""
    else
      match DecodeFirst(b)
      case Some((c, n)) => [c] + ToString(b[n..])
      case None => [Replacement] + ToString(b[1..])
  }

  lemma DecodeEncodeChar(c: char, rest: Bytes)
    ensures DecodeFirst(EncodeChar(c) + rest) == Some((c, |EncodeChar(c)|))
  {
    var cp := c as int;
    var e := EncodeChar(c);
    var b := e + rest;
    assert forall i :: 0 <= i < |e| ==> b[i] == e[i];
    if cp < 0x80 {
    } else if cp < 0x800 {
      DecodeTwo(cp, b);
    } else if cp < 0x10000 {
      DecodeThree(cp, b);
    } else {
      DecodeFour(cp, b);
    }
  }

  lemma DecodeTwo(cp: int, b: Bytes)
    requires 0x80 <= cp < 0x800 && |b| >= 2
    requires b[0] == 0xC0 + cp / 64 && b[1] == 0x80 + cp % 64
    ensures DecodeFirst(b) == Some((cp as char, 2))
  {
    assert (cp / 64) * 64 + cp % 64 == cp;
  }

  lemma DecodeThree(cp: int, b: Bytes)
    requires 0x800 <= cp < 0x10000 && IsScalar(cp) && |b| >= 3
    requires b[0] == 0xE0 + cp / 4096 && b[1] == 0x80 + (cp / 64) % 64 && b[2] == 0x80 + cp % 64
    ensures DecodeFirst(b) == Some((cp as char, 3))
  {
    assert cp / 4096 < 16;
    assert (cp / 64) == (cp / 4096) * 64 + (cp / 64) % 64;
    assert (cp / 4096) * 4096 + ((cp / 64) % 64) * 64 + cp % 64 == cp;
  }

  lemma DecodeFour(cp: int, b: Bytes)
    requires 0x10000 <= cp < 0x110000 && |b| >= 4
    requires b[0] == 0xF0 + cp / 262144 && b[1] == 0x80 + (cp / 4096) % 64
    requires b[2] == 0x80 + (cp / 64) % 64 && b[3] == 0x80 + cp % 64
    ensures DecodeFirst(b) == Some((cp as char, 4))
  {
    assert cp / 262144 < 5;
    assert (cp / 4096) == (cp / 262144) * 64 + (cp / 4096) % 64;
    assert (cp / 64) == (cp / 4096) * 64 + (cp / 64) % 64;
    assert (cp / 262144) * 262144 + ((cp / 4096) % 64) * 4096 + ((cp / 64) % 64) * 64 + cp % 64 == cp;
  }

  /** Text survives the trip through bytes: `Buffer.from(s).toString() === s`. */
  lemma {:induction false} ToStringEncode(s: string)
    ensures ToString(Encode(s)) == s
  {
    if s != [] {
      var e := EncodeChar(s[0]);
      var rest := Encode(s[1..]);
      DecodeEncodeChar(s[0], rest);
      assert (e + rest)[|e|..] == rest;
      ToStringEncode(s[1..]);
      assert [s[0]] + s[1..] == s;
    }
  }

  lemma {:induction false} EncodeAppend(a: string, b: string)
    ensures Encode(a + b) == Encode(a) + Encode(b)
  {
    if a != [] {
      assert (a + b)[0] == a[0] && (a + b)[1..] == a[1..] + b;
      EncodeAppend(a[1..], b);
    } else {
      assert a + b == b;
    }
  }

  predicate IsAscii(s: string) {
    forall i :: 0 <= i < |s| ==> s[i] < 128 as char
  }

  /** An ASCII text encodes to its character codes, one byte each. */
  lemma {:induction false} EncodeAscii(s: string)
    requires IsAscii(s)
    ensures |Encode(s)| == |s|
    ensures forall i :: 0 <= i < |s| ==> Encode(s)[i] == s[i] as int
  {
    if s != [] {
      EncodeAscii(s[1..]);
      assert Encode(s) == [s[0] as int] + Encode(s[1..]);
    }
  }
}
