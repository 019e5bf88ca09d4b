/** The part of JSON the bundle codecs exchange: one flat object whose members
    are strings. `Stringify` is `JSON.stringify` of such an object; `Parse` is
    `JSON.parse` restricted to texts of that shape (whitespace allowed between
    tokens). */
module Json {
  import opened Common

  type Members = seq<(string, string)>

  /** A string JSON.stringify writes as-is between quotes (no escape needed). */
  predicate Plain(s: string) {
    forall i :: 0 <= i < |s| ==> s[i] != '"' && s[i] != '\\' && s[i] >= ' '
  }

  predicate AllPlain(ms: Members) {
    forall i :: 0 <= i < |ms| ==> Plain(ms[i].0) && Plain(ms[i].1)
  }

  function Quote(s: string): string {
    "\"" + s + "\""
  }

  function Pair(m: (string, string)): string {
    Quote(m.0) + ":" + Quote(m.1)
  }

  function Body(ms: Members): string {
    if ms == [] then ""
    else if |ms| == 1 then Pair(ms[0])
    else Pair(ms[0]) + "," + Body(ms[1..])
  }

  /** `JSON.stringify` of an object with members `ms`, in order. */
  function Stringify(ms: Members): (s: string)
    ensures |s| >= 2 && s[0] == '{'
  {
    "{" + Body(ms) + "}"
  }

  // ---- parsing ----

  predicate IsWs(c: char) {
    c == ' ' || c == '\t' || c == '\n' || c == '\r'
  }

  function SkipWs(s: string): (r: string)
    ensures |r| <= |s|
    ensures r == [] || !IsWs(r[0])
  {
    if s != [] && IsWs(s[0]) then SkipWs(s[1..]) else s
  }

  /** The characters of a string literal up to its closing quote (the opening
      quote already consumed), and what follows it. Escapes are not accepted. */
  function ScanString(s: string): (r: Option<(string, string)>)
    ensures r.Some? ==> |r.value.1| < |s|
    ensures r.Some? ==> Plain(r.value.0) && s == r.value.0 + "\"" + r.value.1
  {
    if s == [] then None
    else if s[0] == '"' then Some(("", s[1..]))
    else if s[0] == '\\' || s[0] < ' ' then None
    else
      match ScanString(s[1..])
      case None => None
      case Some((v, rest)) => Some(([s[0]] + v, rest))
  }

  function ParseString(s: string): (r: Option<(string, string)>)
    ensures r.Some? ==> |r.value.1| < |s|
    ensures r.Some? ==> Plain(r.value.0)
  {
    if s != [] && s[0] == '"' then ScanString(s[1..]) else None
  }

  /** One `"key": "value"` member, and the text after it with whitespace skipped. */
  function ParseMember(s: string): (r: Option<((string, string), string)>)
    ensures r.Some? ==> |r.value.1| < |s|
    ensures r.Some? ==> Plain(r.value.0.0) && Plain(r.value.0.1)
  {
    match ParseString(s)
    case None => None
    case Some((k, s1)) =>
      var s2 := SkipWs(s1);
      if s2 == [] || s2[0] != ':' then None
      else
        match ParseString(SkipWs(s2[1..]))
        case None => None
        case Some((v, s3)) => Some(((k, v), SkipWs(s3)))
  }

  /** Members after `{` (and after each `,`), up to and including the closing `}`. */
  function ParseMembers(s: string): (r: Option<(Members, string)>)
    ensures r.Some? ==> |r.value.1| < |s|
    ensures r.Some? ==> AllPlain(r.value.0)
    decreases |s|
  {
    match ParseMember(s)
    case None => None
    case Some((m, t)) =>
      if t == [] then None
      else if t[0] == '}' then Some(([m], t[1..]))
      else if t[0] == ',' then
        match ParseMembers(SkipWs(t[1..]))
        case None => None
        case Some((ms, rest)) =>
          assert forall i :: 0 < i < |[m] + ms| ==> ([m] + ms)[i] == ms[i - 1];
          Some(([m] + ms, rest))
      else None
  }

  /** `JSON.parse(text)` when `text` is a flat object of string members; `None`
      for every other text. Members are returned in text order, duplicates kept,
      and none of them needs an escape. */
  function Parse(text: string): (r: Option<Members>)
    ensures r.Some? ==> AllPlain(r.value)
  {
    var s := SkipWs(text);
    if s == [] || s[0] != '{' then None
    else
      var t := SkipWs(s[1..]);
      if t != [] && t[0] == '}' then
        if SkipWs(t[1..]) == [] then Some([]) else None
      else
        match ParseMembers(t)
        case None => None
        case Some((ms, rest)) => if SkipWs(rest) == [] then Some(ms) else None
  }

  /** Property lookup on the parsed object: the last member with key `k` wins. */
  function Get(ms: Members, k: string): (r: Option<string>)
    ensures r.None? <==> forall i :: 0 <= i < |ms| ==> ms[i].0 != k
    ensures r.Some? ==> exists i :: 0 <= i < |ms| && ms[i] == (k, r.value) &&
                                   forall j :: i < j < |ms| ==> ms[j].0 != k
  {
    if ms == [] then None
    else
      match Get(ms[1..], k)
      case Some(v) =>
        ghost var i :| 0 <= i < |ms[1..]| && ms[1..][i] == (k, v) &&
                       forall j :: i < j < |ms[1..]| ==> ms[1..][j].0 != k;
        assert ms[i + 1] == (k, v);
        assert forall j :: i + 1 < j < |ms| ==> ms[j].0 != k by {
          forall j | i + 1 < j < |ms| ensures ms[j].0 != k {
            assert ms[j] == ms[1..][j - 1];
          }
        }
        Some(v)
      case None =>
        assert forall j :: 0 < j < |ms| ==> ms[j].0 != k by {
          forall j | 0 < j < |ms| ensures ms[j].0 != k {
            assert ms[j] == ms[1..][j - 1];
          }
        }
        if ms[0].0 == k then Some(ms[0].1) else None
  }

  /** The keys of a parsed object. */
  function Keys(ms: Members): set<string> {
    set i | 0 <= i < |ms| :: ms[i].0
  }

  /** `Object.keys(JSON.parse(text))`: exactly the keys lookup finds. */
  lemma KeysGet(ms: Members, k: string)
    ensures k in Keys(ms) <==> Get(ms, k).Some?
  {
    if Get(ms, k).None? {
      forall i | 0 <= i < |ms| ensures ms[i].0 != k {
      }
    }
  }

  // ---- round trip ----

  lemma {:induction false} ScanPlain(v: string, tail: string)
    requires Plain(v)
    ensures ScanString(v + "\"" + tail) == Some((v, tail))
  {
    if v == [] {
      assert v + "\"" + tail == "\"" + tail;
    } else {
      assert (v + "\"" + tail)[0] == v[0];
      assert (v + "\"" + tail)[1..] == v[1..] + "\"" + tail;
      ScanPlain(v[1..], tail);
      assert [v[0]] + v[1..] == v;
    }
  }

  lemma ParseQuote(v: string, tail: string)
    requires Plain(v)
    ensures ParseString(Quote(v) + tail) == Some((v, tail))
  {
    assert Quote(v) + tail == "\"" + (v + "\"" + tail);
    ScanPlain(v, tail);
  }

  /** One member followed by `after` (which starts with neither whitespace nor
      anything JSON would skip) parses to that member, leaving `after`. */
  lemma ParsePair(m: (string, string), after: string)
    requires Plain(m.0) && Plain(m.1)
    requires after != [] && !IsWs(after[0])
    ensures ParseMember(Pair(m) + after) == Some((m, after))
  {
    var colon := ":" + Quote(m.1) + after;
    assert Pair(m) + after == Quote(m.0) + colon;
    ParseQuote(m.0, colon);
    assert SkipWs(colon) == colon;
    assert colon[1..] == Quote(m.1) + after;
    assert SkipWs(colon[1..]) == colon[1..];
    ParseQuote(m.1, after);
    assert SkipWs(after) == after;
  }

  lemma {:induction false} ParseBody(ms: Members, tail: string)
    requires ms != [] && AllPlain(ms)
    ensures ParseMembers(Body(ms) + "}" + tail) == Some((ms, tail))
    decreases |ms|
  {
    var m := ms[0];
    if |ms| == 1 {
      ParseBodyOne(ms, tail);
    } else {
      var rest := ms[1..];
      assert AllPlain(rest) by {
        forall i | 0 <= i < |rest| ensures Plain(rest[i].0) && Plain(rest[i].1) {
          assert rest[i] == ms[i + 1];
        }
      }
      ParseBody(rest, tail);
      BodyStart(rest);
      BodyCons(ms, tail);
      ParseMembersCons(ms, Body(rest) + "}" + tail, tail, Body(ms) + "}" + tail);
    }
  }

  lemma ParseBodyOne(ms: Members, tail: string)
    requires |ms| == 1 && Plain(ms[0].0) && Plain(ms[0].1)
    ensures ParseMembers(Body(ms) + "}" + tail) == Some((ms, tail))
  {
    var m := ms[0];
    ParsePair(m, "}" + tail);
    assert Body(ms) + "}" + tail == Pair(m) + ("}" + tail);
    assert ("}" + tail)[1..] == tail;
    assert [m] == ms;
  }

  lemma BodyCons(ms: Members, tail: string)
    requires |ms| > 1
    ensures Body(ms) + "}" + tail == Pair(ms[0]) + ("," + (Body(ms[1..]) + "}" + tail))
  {
    var a, b := Pair(ms[0]), Body(ms[1..]);
    assert Body(ms) == a + "," + b;
    Regroup(a, ",", b, "}", tail);
  }

  lemma Regroup(x: string, y: string, z: string, u: string, w: string)
    ensures x + y + z + u + w == x + (y + (z + u + w))
  {
  }

  /** A member, a comma and members that parse, parse as one more member. */
  lemma ParseMembersCons(ms: Members, more: string, tail: string, text: string)
    requires |ms| > 1 && Plain(ms[0].0) && Plain(ms[0].1)
    requires more != [] && more[0] == '"'
    requires ParseMembers(more) == Some((ms[1..], tail))
    requires text == Pair(ms[0]) + ("," + more)
    ensures ParseMembers(text) == Some((ms, tail))
  {
    var after := "," + more;
    ParsePair(ms[0], after);
    assert after[1..] == more;
    assert SkipWs(more) == more;
    assert ms == [ms[0]] + ms[1..];
  }

  lemma BodyStart(ms: Members)
    requires ms != []
    ensures Body(ms) != [] && Body(ms)[0] == '"'
  {
    if |ms| == 1 {
      assert Body(ms) == Quote(ms[0].0) + (":" + Quote(ms[0].1));
    } else {
      assert Body(ms) == Quote(ms[0].0) + (":" + Quote(ms[0].1) + "," + Body(ms[1..]));
    }
  }

  /** `JSON.parse(JSON.stringify(o))` gives back the members of `o`. */
  lemma ParseStringify(ms: Members)
    requires AllPlain(ms)
    ensures Parse(Stringify(ms)) == Some(ms)
  {
    var text := Stringify(ms);
    assert SkipWs(text) == text;
    assert text[1..] == Body(ms) + "}";
    if ms == [] {
      assert text[1..] == "}";
    } else {
      BodyStart(ms);
      assert SkipWs(text[1..]) == text[1..];
      ParseBody(ms, "");
      assert Body(ms) + "}" + "" == text[1..];
    }
  }
}
