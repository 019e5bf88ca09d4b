/** Standard base64 (section 4 of RFC 4648) as Node's `Buffer` writes it:
    `buf.toString('base64')` is `Encode`, and `Buffer.from(s, 'base64')` is
    modelled by `Decode` on canonical text only (see README, "Left out"). */
module Base64 {
  import opened Common

  /** The character for a 6-bit value: `A`-`Z`, `a`-`z`, `0`-`9`, `+`, `/`. */
  function Char(v: int): (c: char)
    requires 0 <= v < 64
  {
    if v < 26 then ('A' as int + v) as char
    else if v < 52 then ('a' as int + (v - 26)) as char
    else if v < 62 then ('0' as int + (v - 52)) as char
    else if v == 62 then '+'
    else '/'
  }

  /** The 6-bit value of an alphabet character, or -1 for any other character. */
  function Value(c: char): (v: int)
    ensures -1 <= v < 64
    ensures v >= 0 ==> Char(v) == c
  {
    if 'A' <= c <= 'Z' then c as int - 'A' as int
    else if 'a' <= c <= 'z' then c as int - 'a' as int + 26
    else if '0' <= c <= '9' then c as int - '0' as int + 52
    else if c == '+' then 62
    else if c == '/' then 63
    else -1
  }

  lemma ValueChar(v: int)
    requires 0 <= v < 64
    ensures Value(Char(v)) == v
  {
  }

  /** The characters `Encode` may produce. */
  predicate InAlphabet(c: char) {
    Value(c) >= 0 || c == '='
  }

  // ---- one group of (up to) three bytes ----

  function EncodeGroup(b: Bytes): (s: string)
    requires 1 <= |b| <= 3
    ensures |s| == 4
  {
    if |b| == 1 then
      [Char(b[0] / 4), Char((b[0] % 4) * 16), '=', '=']
    else if |b| == 2 then
      [Char(b[0] / 4), Char((b[0] % 4) * 16 + b[1] / 16), Char((b[1] % 16) * 4), '=']
    else
      [Char(b[0] / 4), Char((b[0] % 4) * 16 + b[1] / 16),
       Char((b[1] % 16) * 4 + b[2] / 64), Char(b[2] % 64)]
  }

  /** Decodes four characters. Padding `=` is accepted only where `last` says the
      group ends the text, and bits that padding drops must be zero (canonical form). */
  function DecodeGroup(s: string, last: bool): (r: Option<Bytes>)
    requires |s| == 4
    ensures r.Some? ==> 1 <= |r.value| <= 3 && (|r.value| < 3 ==> last)
  {
    var v0, v1, v2, v3 := Value(s[0]), Value(s[1]), Value(s[2]), Value(s[3]);
    if v0 < 0 || v1 < 0 then None
    else if v2 >= 0 && v3 >= 0 then
      Some([v0 * 4 + v1 / 16, (v1 % 16) * 16 + v2 / 4, (v2 % 4) * 64 + v3])
    else if last && v2 >= 0 && s[3] == '=' && v2 % 4 == 0 then
      Some([v0 * 4 + v1 / 16, (v1 % 16) * 16 + v2 / 4])
    else if last && s[2] == '=' && s[3] == '=' && v1 % 16 == 0 then
      Some([v0 * 4 + v1 / 16])
    else None
  }

  /** Division and remainder recover the two halves of `q * d + r`
      for the three group widths the codec uses. */
  lemma Split(q: int, r: int, d: int)
    requires d == 4 || d == 16 || d == 64
    requires 0 <= r < d
    ensures (q * d + r) / d == q && (q * d + r) % d == r
  {
    if d == 4 {
      assert (q * 4 + r) / 4 == q;
    } else if d == 16 {
      assert (q * 16 + r) / 16 == q;
    } else {
      assert (q * 64 + r) / 64 == q;
    }
  }

  lemma DecodeEncodeGroup(b: Bytes, last: bool)
    requires 1 <= |b| <= 3
    requires |b| < 3 ==> last
    ensures DecodeGroup(EncodeGroup(b), last) == Some(b)
  {
    if |b| == 1 {
      DecodeEncodeOne(b[0]);
      assert b == [b[0]];
    } else if |b| == 2 {
      DecodeEncodeTwo(b[0], b[1]);
      assert b == [b[0], b[1]];
    } else {
      DecodeEncodeThree(b[0], b[1], b[2], last);
      assert b == [b[0], b[1], b[2]];
    }
  }

  lemma DecodeEncodeOne(x: byte)
    ensures DecodeGroup(EncodeGroup([x]), true) == Some([x])
  {
    Split(x / 4, x % 4, 4);
    Split(x % 4, 0, 16);
    ValueChar(x / 4);
    ValueChar((x % 4) * 16);
  }

  lemma DecodeEncodeTwo(x: byte, y: byte)
    ensures DecodeGroup(EncodeGroup([x, y]), true) == Some([x, y])
  {
    var v0, v1, v2 := x / 4, (x % 4) * 16 + y / 16, (y % 16) * 4;
    ValueChar(v0);
    ValueChar(v1);
    ValueChar(v2);
    Split(x % 4, y / 16, 16);
    Split(y % 16, 0, 4);
    assert v0 * 4 + v1 / 16 == x;
    assert (v1 % 16) * 16 + v2 / 4 == y;
  }

  lemma DecodeEncodeThree(x: byte, y: byte, z: byte, last: bool)
    ensures DecodeGroup(EncodeGroup([x, y, z]), last) == Some([x, y, z])
  {
    var v0, v1, v2, v3 := x / 4, (x % 4) * 16 + y / 16, (y % 16) * 4 + z / 64, z % 64;
    ValueChar(v0);
    ValueChar(v1);
    ValueChar(v2);
    ValueChar(v3);
    Split(x % 4, y / 16, 16);
    Split(y % 16, z / 64, 4);
    assert v0 * 4 + v1 / 16 == x;
    assert (v1 % 16) * 16 + v2 / 4 == y;
    assert (v2 % 4) * 64 + v3 == z;
  }

  lemma EncodeDecodeGroup(s: string, last: bool)
    requires |s| == 4 && DecodeGroup(s, last).Some?
    ensures EncodeGroup(DecodeGroup(s, last).value) == s
  {
    var v0, v1, v2, v3 := Value(s[0]), Value(s[1]), Value(s[2]), Value(s[3]);
    assert v0 >= 0 && v1 >= 0;
    if v2 >= 0 && v3 >= 0 {
      var b := [v0 * 4 + v1 / 16, (v1 % 16) * 16 + v2 / 4, (v2 % 4) * 64 + v3];
      EncodeThreeValues(v0, v1, v2, v3);
      assert DecodeGroup(s, last) == Some(b);
      assert s == [Char(v0), Char(v1), Char(v2), Char(v3)];
    } else if last && v2 >= 0 && s[3] == '=' && v2 % 4 == 0 {
      var b := [v0 * 4 + v1 / 16, (v1 % 16) * 16 + v2 / 4];
      EncodeTwoValues(v0, v1, v2);
      assert DecodeGroup(s, last) == Some(b);
      assert s == [Char(v0), Char(v1), Char(v2), '='];
    } else {
      assert s[2] == '=' && s[3] == '=' && v1 % 16 == 0;
      var b := [v0 * 4 + v1 / 16];
      EncodeOneValue(v0, v1);
      assert DecodeGroup(s, last) == Some(b);
      assert s == [Char(v0), Char(v1), '=', '='];
    }
  }

  /** The two halves of the first byte of a group, put back together. */
  lemma FirstByte(v0: int, v1: int)
    requires 0 <= v0 < 64 && 0 <= v1 < 64
    ensures 0 <= v0 * 4 + v1 / 16 < 256
    ensures (v0 * 4 + v1 / 16) / 4 == v0
    ensures ((v0 * 4 + v1 / 16) % 4) * 16 == v1 - v1 % 16
  {
    Split(v1 / 16, v1 % 16, 16);
    Split(v0, v1 / 16, 4);
  }

  lemma SecondByte(v1: int, v2: int)
    requires 0 <= v1 < 64 && 0 <= v2 < 64
    ensures 0 <= (v1 % 16) * 16 + v2 / 4 < 256
    ensures ((v1 % 16) * 16 + v2 / 4) / 16 == v1 % 16
    ensures (((v1 % 16) * 16 + v2 / 4) % 16) * 4 == v2 - v2 % 4
  {
    Split(v2 / 4, v2 % 4, 4);
    Split(v1 % 16, v2 / 4, 16);
  }

  lemma EncodeOneValue(v0: int, v1: int)
    requires 0 <= v0 < 64 && 0 <= v1 < 64 && v1 % 16 == 0
    ensures 0 <= v0 * 4 + v1 / 16 < 256
    ensures EncodeGroup([v0 * 4 + v1 / 16]) == [Char(v0), Char(v1), '=', '=']
  {
    FirstByte(v0, v1);
  }

  lemma EncodeTwoValues(v0: int, v1: int, v2: int)
    requires 0 <= v0 < 64 && 0 <= v1 < 64 && 0 <= v2 < 64 && v2 % 4 == 0
    ensures 0 <= v0 * 4 + v1 / 16 < 256 && 0 <= (v1 % 16) * 16 + v2 / 4 < 256
    ensures EncodeGroup([v0 * 4 + v1 / 16, (v1 % 16) * 16 + v2 / 4]) == [Char(v0), Char(v1), Char(v2), '=']
  {
    FirstByte(v0, v1);
    SecondByte(v1, v2);
    var x, y := v0 * 4 + v1 / 16, (v1 % 16) * 16 + v2 / 4;
    assert (x % 4) * 16 + y / 16 == v1;
  }

  lemma EncodeThreeValues(v0: int, v1: int, v2: int, v3: int)
    requires 0 <= v0 < 64 && 0 <= v1 < 64 && 0 <= v2 < 64 && 0 <= v3 < 64
    ensures 0 <= v0 * 4 + v1 / 16 < 256 && 0 <= (v1 % 16) * 16 + v2 / 4 < 256 && 0 <= (v2 % 4) * 64 + v3 < 256
    ensures EncodeGroup([v0 * 4 + v1 / 16, (v1 % 16) * 16 + v2 / 4, (v2 % 4) * 64 + v3]) ==
      [Char(v0), Char(v1), Char(v2), Char(v3)]
  {
    FirstByte(v0, v1);
    SecondByte(v1, v2);
    Split(v2 % 4, v3, 64);
    var x, y, z := v0 * 4 + v1 / 16, (v1 % 16) * 16 + v2 / 4, (v2 % 4) * 64 + v3;
    assert (x % 4) * 16 + y / 16 == v1;
    assert (y % 16) * 4 + z / 64 == v2;
  }

  /** Every character of one encoded group is in the alphabet or is `=`. */
  lemma GroupAlphabet(b: Bytes)
    requires 1 <= |b| <= 3
    ensures forall i :: 0 <= i < 4 ==> InAlphabet(EncodeGroup(b)[i])
  {
    var s := EncodeGroup(b);
    if |b| == 1 {
      ValueChar(b[0] / 4);
      ValueChar((b[0] % 4) * 16);
    } else if |b| == 2 {
      ValueChar(b[0] / 4);
      ValueChar((b[0] % 4) * 16 + b[1] / 16);
      ValueChar((b[1] % 16) * 4);
    } else {
      ValueChar(b[0] / 4);
      ValueChar((b[0] % 4) * 16 + b[1] / 16);
      ValueChar((b[1] % 16) * 4 + b[2] / 64);
      ValueChar(b[2] % 64);
    }
  }

  // ---- whole texts ----

  /** `Buffer.from(b).toString('base64')`. */
  function Encode(b: Bytes): (s: string)
    ensures |s| == 4 * CeilDiv(|b|, 3)
    decreases |b|
  {
    if |b| == 0 then ""
    else if |b| <= 3 then EncodeGroup(b)
    else
      assert CeilDiv(|b|, 3) == CeilDiv(|b| - 3, 3) + 1;
      EncodeGroup(b[..3]) + Encode(b[3..])
  }

  /** `Buffer.from(s, 'base64')` on canonical text; `None` for any other text.
      Decoding accepts only what `Encode` writes, so the two are inverse on
      canonical text. */
  function Decode(s: string): (r: Option<Bytes>)
    ensures r.Some? ==> Encode(r.value) == s
    decreases |s|
  {
    if |s| == 0 then Some([])
    else if |s| < 4 then None
    else
      match DecodeGroup(s[..4], |s| == 4)
      case None => None
      case Some(g) =>
        EncodeDecodeGroup(s[..4], |s| == 4);
        match Decode(s[4..])
        case None => None
        case Some(rest) =>
          assert Encode(g + rest) == s by {
            if |s| == 4 {
              assert s[4..] == "" && rest == [];
              assert g + rest == g && s[..4] == s;
            } else {
              assert |g| == 3;
              assert (g + rest)[..3] == g && (g + rest)[3..] == rest;
              assert |Encode(rest)| == |s| - 4 > 0;
              assert s == s[..4] + s[4..];
            }
          }
          Some(g + rest)
  }

  /** Decoding undoes encoding: every byte string survives the trip. */
  lemma {:induction false} DecodeEncode(b: Bytes)
    ensures Decode(Encode(b)) == Some(b)
    decreases |b|
  {
    if |b| == 0 {
    } else if |b| <= 3 {
      DecodeEncodeGroup(b, true);
      var s := Encode(b);
      assert s == EncodeGroup(b) && s[..4] == s;
      assert Decode(s[4..]) == Some([]);
      assert b + [] == b;
    } else {
      var s := Encode(b);
      DecodeEncodeGroup(b[..3], |s| == 4);
      assert s[..4] == EncodeGroup(b[..3]);
      assert s[4..] == Encode(b[3..]);
      DecodeEncode(b[3..]);
      assert b[..3] + b[3..] == b;
    }
  }

  /** Every character of an encoding is in the base64 alphabet or is `=`. */
  lemma {:induction false} EncodeAlphabet(b: Bytes)
    ensures forall i :: 0 <= i < |Encode(b)| ==> InAlphabet(Encode(b)[i])
    decreases |b|
  {
    if 1 <= |b| <= 3 {
      GroupAlphabet(b);
    } else if |b| > 3 {
      GroupAlphabet(b[..3]);
      EncodeAlphabet(b[3..]);
      var g, t := EncodeGroup(b[..3]), Encode(b[3..]);
      assert Encode(b) == g + t;
      forall i | 0 <= i < |g + t| ensures InAlphabet((g + t)[i]) {
        if i >= 4 { assert (g + t)[i] == t[i - 4]; } else { assert (g + t)[i] == g[i]; }
      }
    }
  }

  /** The encoding of at least three bytes begins with the encoding of the first three. */
  lemma EncodeStart(b: Bytes)
    requires |b| >= 3
    ensures Encode(b)[..4] == EncodeGroup(b[..3])
  {
    var g := EncodeGroup(b[..3]);
    if |b| > 3 {
      var t := Encode(b[3..]);
      assert Encode(b) == g + t;
      assert (g + t)[..4] == g;
    } else {
      assert b[..3] == b;
    }
  }

  // ---- padding ----

  /** `s.split('=').shift()`: everything before the first `=`. */
  function BeforeFirstPad(s: string): (r: string)
    ensures r <= s
    ensures forall i :: 0 <= i < |r| ==> r[i] != '='
    ensures |r| < |s| ==> s[|r|] == '='
  {
    if s == [] then []
    else if s[0] == '=' then []
    else [s[0]] + BeforeFirstPad(s[1..])
  }

  /** Without its padding an encoding of `n` bytes is `ceil(4n/3)` characters long. */
  lemma {:induction false} UnpaddedLength(b: Bytes)
    ensures |BeforeFirstPad(Encode(b))| == CeilDiv(4 * |b|, 3)
    decreases |b|
  {
    var s := Encode(b);
    if |b| == 0 {
    } else if |b| <= 3 {
      assert s == EncodeGroup(b);
      if |b| == 1 {
        assert s[2] == '=';
        assert s[0] != '=' && s[1] != '=';
        NoPadPrefix(s, 2);
      } else if |b| == 2 {
        assert s[3] == '=';
        assert s[0] != '=' && s[1] != '=' && s[2] != '=';
        NoPadPrefix(s, 3);
      } else {
        assert forall i :: 0 <= i < 4 ==> s[i] != '=';
        NoPadPrefix(s, 4);
      }
    } else {
      assert s == EncodeGroup(b[..3]) + Encode(b[3..]);
      var g := EncodeGroup(b[..3]);
      assert forall i :: 0 <= i < 4 ==> g[i] != '=';
      SkipNoPad(g, Encode(b[3..]));
      UnpaddedLength(b[3..]);
    }
  }

  lemma {:induction false} SkipNoPad(g: string, t: string)
    requires forall i :: 0 <= i < |g| ==> g[i] != '='
    ensures BeforeFirstPad(g + t) == g + BeforeFirstPad(t)
    decreases |g|
  {
    if g != [] {
      var u := g + t;
      assert u[0] == g[0] && u[1..] == g[1..] + t;
      SkipNoPad(g[1..], t);
      var r := BeforeFirstPad(t);
      assert BeforeFirstPad(u) == [g[0]] + (g[1..] + r);
      assert [g[0]] + (g[1..] + r) == ([g[0]] + g[1..]) + r;
      assert [g[0]] + g[1..] == g;
    } else {
      assert g + t == t;
    }
  }

  lemma NoPadPrefix(s: string, k: nat)
    requires k <= |s|
    requires forall i :: 0 <= i < k ==> s[i] != '='
    requires k < |s| ==> s[k] == '='
    ensures |BeforeFirstPad(s)| == k
  {
    SkipNoPad(s[..k], s[k..]);
    assert s[..k] + s[k..] == s;
  }
}
