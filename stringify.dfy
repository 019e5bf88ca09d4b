/** bin/util/stringify.js: how the command line prints a value. A string is
    printed as it is, a buffer as its UTF-8 text; an object is flattened into
    `path: value` lines, one per string or buffer leaf, whose paths join the
    keys with `/`, sorted by path and joined with newlines. */
module Stringify {
  import opened Common
  import opened Js
  import Utf8

  /** A flattened leaf: its key path and its text. */
  type Line = (string, string)

  /** `Object.entries(null)` and `Object.entries(undefined)` throw. */
  const NullObject: string := "Cannot convert undefined or null to object"

  function ValueSize(v: Value): nat
    decreases v
  {
    match v
    case Object(es) => 1 + EntriesSize(es)
    case _ => 1
  }

  function EntriesSize(es: seq<(string, Value)>): nat
    decreases es
  {
    if es == [] then 0 else EntrySize(es[0]) + EntriesSize(es[1..])
  }

  function EntrySize(e: (string, Value)): nat
    decreases e
  {
    ValueSize(e.1)
  }

  lemma {:induction false} EntriesSizeAppend(es: seq<(string, Value)>, e: (string, Value))
    ensures EntriesSize(es + [e]) == EntriesSize(es) + ValueSize(e.1)
  {
    if es == [] {
      assert [e][1..] == [];
    } else {
      assert (es + [e])[1..] == es[1..] + [e];
      EntriesSizeAppend(es[1..], e);
    }
  }

  /** `s` begins with `p`. */
  predicate HasPrefix(s: string, p: string) {
    |p| <= |s| && s[..|p|] == p
  }

  /** The lines one entry `[k, v]` adds under `path`: a string or buffer leaf
      gives one line, an object its own lines under `path + k + '/'`, a
      number or boolean none (it has no entries), and `null` or `undefined`
      makes `Object.entries` throw. */
  function EntryLines(k: string, v: Value, path: string): (r: Result<seq<Line>>)
    ensures r.Ok? ==> forall i :: 0 <= i < |r.value| ==> HasPrefix(r.value[i].0, path + k)
    ensures (v.Str? || v.Buffer?) ==> r.Ok? && |r.value| == 1
    ensures v.Str? ==> r == Ok([(path + k, v.s)])
    ensures v.Buffer? ==> r == Ok([(path + k, Utf8.ToString(v.bytes))])
    ensures (v.Bool? || v.Number?) ==> r == Ok([])
    ensures (v.Null? || v.Undefined?) ==> r == Err(NullObject)
    decreases ValueSize(v), 0
  {
    match v
    case Str(s) => Ok([(path + k, s)])
    case Buffer(b) => Ok([(path + k, Utf8.ToString(b))])
    case Null => Err(NullObject)
    case Undefined => Err(NullObject)
    case Bool(_) => Ok([])
    case Number(_) => Ok([])
    case Object(es) =>
      var r := Flat(es, path + k + "/");
      assert r.Ok? ==> forall i :: 0 <= i < |r.value| ==> HasPrefix(r.value[i].0, path + k) by {
        if r.Ok? {
          forall i | 0 <= i < |r.value| ensures HasPrefix(r.value[i].0, path + k) {
            assert r.value[i].0[..|path + k|] == (path + k + "/")[..|path + k|];
          }
        }
      }
      r
  }

  /** `flatten(obj, arr, path)` on the entries of `obj`: their lines in the
      order `forEach` visits them, or the first error thrown. */
  function Flat(es: seq<(string, Value)>, path: string): (r: Result<seq<Line>>)
    ensures r.Ok? ==> forall i :: 0 <= i < |r.value| ==> HasPrefix(r.value[i].0, path)
    decreases EntriesSize(es), 1
  {
    if es == [] then Ok([])
    else
      assert EntriesSize(es) == ValueSize(es[0].1) + EntriesSize(es[1..]);
      match EntryLines(es[0].0, es[0].1, path)
      case Err(m) => Err(m)
      case Ok(h) =>
        match Flat(es[1..], path)
        case Err(m) => Err(m)
        case Ok(t) =>
          assert forall i :: 0 <= i < |h| ==> HasPrefix(h[i].0, path) by {
            forall i | 0 <= i < |h| ensures HasPrefix(h[i].0, path) {
              assert h[i].0[..|path|] == (path + es[0].0)[..|path|];
            }
          }
          Ok(h + t)
  }

  /** An entry whose value is an object contributes that object's lines, with
      the entry's key and a `/` joined onto their path. */
  lemma FlatNested(k: string, es: seq<(string, Value)>, path: string)
    ensures Flat([(k, Object(es))], path) == Flat(es, path + k + "/")
  {
    assert [(k, Object(es))][1..] == [];
    var r := Flat(es, path + k + "/");
    if r.Ok? {
      assert r.value + [] == r.value;
    }
  }

  /** Visiting one more entry appends its lines, unless an error was already
      thrown. */
  lemma {:induction false} FlatAppend(es: seq<(string, Value)>, e: (string, Value), path: string)
    ensures Flat(es + [e], path) ==
      match Flat(es, path)
      case Err(m) => Err(m)
      case Ok(a) =>
        match EntryLines(e.0, e.1, path)
        case Err(m) => Err(m)
        case Ok(b) => Ok(a + b)
    decreases |es|
  {
    if es == [] {
      assert [e][1..] == [];
      assert es + [e] == [e];
      match EntryLines(e.0, e.1, path)
      case Err(_) =>
      case Ok(b) =>
        assert [] + b == b + [];
    } else {
      assert (es + [e])[0] == es[0];
      assert (es + [e])[1..] == es[1..] + [e];
      FlatAppend(es[1..], e, path);
      match Flat(es[1..], path)
      case Err(_) =>
      case Ok(t) =>
        match EntryLines(e.0, e.1, path)
        case Err(_) =>
        case Ok(b) =>
          var h := EntryLines(es[0].0, es[0].1, path);
          if h.Ok? {
            assert h.value + (t + b) == (h.value + t) + b;
          }
    }
  }

  /** An object whose values are all strings flattens to one line per key, in
      entry order. */
  lemma {:induction false} FlatStrings(es: seq<(string, Value)>, path: string)
    requires forall i :: 0 <= i < |es| ==> es[i].1.Str?
    ensures Flat(es, path).Ok?
    ensures |Flat(es, path).value| == |es|
    ensures forall i :: 0 <= i < |es| ==> Flat(es, path).value[i] == (path + es[i].0, es[i].1.s)
  {
    if es != [] {
      FlatStrings(es[1..], path);
      var t := Flat(es[1..], path).value;
      assert Flat(es, path).value == [(path + es[0].0, es[0].1.s)] + t;
      forall i | 1 <= i < |es| ensures Flat(es, path).value[i] == (path + es[i].0, es[i].1.s) {
        assert es[1..][i - 1] == es[i];
      }
    }
  }

  /** `flatten(obj, arr, path)`: each entry's lines are pushed onto
      the accumulator `arr`, recursing into nested objects; the value returned
      is `arr` after the pushes. */
  method Flatten(es: seq<(string, Value)>, arr: seq<Line>, path: string) returns (r: Result<seq<Line>>)
    ensures Flat(es, path).Err? ==> r == Err(Flat(es, path).msg)
    ensures Flat(es, path).Ok? ==> r == Ok(arr + Flat(es, path).value)
    decreases EntriesSize(es)
  {
    var acc := arr;
    var i := 0;
    while i < |es|
      invariant 0 <= i <= |es|
      invariant Flat(es[..i], path).Ok? && acc == arr + Flat(es[..i], path).value
    {
      var (k, v) := es[i];
      assert es[..i + 1] == es[..i] + [es[i]];
      FlatAppend(es[..i], es[i], path);
      assert EntriesSize(es) >= ValueSize(v) by {
        EntriesSizeAppend(es[..i], es[i]);
        EntriesSizeSplit(es, i + 1);
      }
      match v {
        case Str(s) =>
          acc := acc + [(path + k, s)];
        case Buffer(b) =>
          acc := acc + [(path + k, Utf8.ToString(b))];
        case Null =>
          FlatPrefixErr(es, i + 1, path);
          return Err(NullObject);
        case Undefined =>
          FlatPrefixErr(es, i + 1, path);
          return Err(NullObject);
        case Bool(_) =>
        case Number(_) =>
        case Object(inner) =>
          var sub := Flatten(inner, acc, path + k + "/");
          if sub.Err? {
            FlatPrefixErr(es, i + 1, path);
            return sub;
          }
          acc := sub.value;
      }
      i := i + 1;
    }
    assert es[..i] == es;
    return Ok(acc);
  }

  lemma {:induction false} EntriesSizeSplit(es: seq<(string, Value)>, n: nat)
    requires n <= |es|
    ensures EntriesSize(es[..n]) <= EntriesSize(es)
    decreases |es| - n
  {
    if n < |es| {
      assert es[..n + 1] == es[..n] + [es[n]];
      EntriesSizeAppend(es[..n], es[n]);
      EntriesSizeSplit(es, n + 1);
    } else {
      assert es[..n] == es;
    }
  }

  /** An error in a prefix of the entries is the error of all of them. */
  lemma {:induction false} FlatPrefixErr(es: seq<(string, Value)>, n: nat, path: string)
    requires n <= |es| && Flat(es[..n], path).Err?
    ensures Flat(es, path) == Err(Flat(es[..n], path).msg)
    decreases |es| - n
  {
    if n < |es| {
      assert es[..n + 1] == es[..n] + [es[n]];
      FlatAppend(es[..n], es[n], path);
      FlatPrefixErr(es, n + 1, path);
    } else {
      assert es[..n] == es;
    }
  }

  // ---- the sort ----

  /** JavaScript's `a < b` on strings: lexicographic by character, a proper
      prefix first. */
  predicate Less(a: string, b: string) {
    if a == [] then b != []
    else if b == [] then false
    else if a[0] != b[0] then a[0] < b[0]
    else Less(a[1..], b[1..])
  }

  lemma {:induction false} LessIrreflexive(a: string)
    ensures !Less(a, a)
  {
    if a != [] {
      LessIrreflexive(a[1..]);
    }
  }

  lemma {:induction false} LessTotal(a: string, b: string)
    ensures a == b || Less(a, b) || Less(b, a)
  {
    if a != [] && b != [] && a[0] == b[0] {
      LessTotal(a[1..], b[1..]);
      if a[1..] == b[1..] {
        assert a == [a[0]] + a[1..] && b == [b[0]] + b[1..];
      }
    }
  }

  lemma {:induction false} LessTransitive(a: string, b: string, c: string)
    requires Less(a, b) && Less(b, c)
    ensures Less(a, c)
  {
    if a != [] && b != [] && c != [] && a[0] == b[0] && b[0] == c[0] {
      LessTransitive(a[1..], b[1..], c[1..]);
    }
  }

  /** Keys in non-decreasing order. */
  predicate Sorted(ls: seq<Line>) {
    forall i, j :: 0 <= i < j < |ls| ==> !Less(ls[j].0, ls[i].0)
  }

  /** `ls` sorted by key, with the comparator `a > b ? 1 : -1`.
      Insertion puts `l` after every line whose key is not greater. */
  function Insert(l: Line, ls: seq<Line>): (r: seq<Line>)
    ensures multiset(r) == multiset(ls) + multiset{l}
    ensures |r| == |ls| + 1
  {
    if ls == [] then [l]
    else if Less(l.0, ls[0].0) then [l] + ls
    else
      assert ls == [ls[0]] + ls[1..];
      [ls[0]] + Insert(l, ls[1..])
  }

  /** `arr.sort(...)`: the lines ordered by key, a permutation of the input. */
  function Sort(ls: seq<Line>): (r: seq<Line>)
    ensures Sorted(r)
    ensures multiset(r) == multiset(ls)
  {
    if ls == [] then []
    else
      InsertSorted(ls[0], Sort(ls[1..]));
      assert ls == [ls[0]] + ls[1..];
      Insert(ls[0], Sort(ls[1..]))
  }

  /** Every line of `Insert(l, ls)` is `l` or a line of `ls`. */
  lemma InsertElements(l: Line, ls: seq<Line>)
    ensures forall x :: x in Insert(l, ls) <==> x == l || x in ls
  {
    assert forall x :: x in Insert(l, ls) <==> x in multiset(Insert(l, ls));
    assert forall x :: x in ls <==> x in multiset(ls);
  }

  lemma {:induction false} InsertSorted(l: Line, ls: seq<Line>)
    requires Sorted(ls)
    ensures Sorted(Insert(l, ls))
  {
    if ls != [] && !Less(l.0, ls[0].0) {
      assert Sorted(ls[1..]);
      InsertSorted(l, ls[1..]);
      var t := Insert(l, ls[1..]);
      InsertElements(l, ls[1..]);
      forall j | 0 < j < |t| + 1 ensures !Less(([ls[0]] + t)[j].0, ls[0].0) {
        var x := t[j - 1];
        assert x in t;
        if x == l {
        } else {
          var m :| 0 <= m < |ls[1..]| && ls[1..][m] == x;
          assert ls[m + 1] == x;
        }
      }
    } else if ls != [] {
      forall j | 0 <= j < |ls| ensures !Less(ls[j].0, l.0) {
        if Less(ls[j].0, l.0) {
          if j == 0 {
            LessIrreflexive(l.0);
            LessTransitive(l.0, ls[0].0, l.0);
          } else {
            assert !Less(ls[j].0, ls[0].0);
            LessTotal(ls[j].0, ls[0].0);
            if ls[j].0 == ls[0].0 {
              LessTransitive(l.0, ls[0].0, l.0);
            } else {
              LessTransitive(ls[0].0, ls[j].0, l.0);
              LessTransitive(l.0, ls[0].0, l.0);
            }
            LessIrreflexive(l.0);
          }
        }
      }
    }
  }

  /** The sorted lines are in key order and are the same lines. */
  // ---- the output ----

  /** `k + ': ' + v`. */
  function Format(l: Line): string {
    l.0 + ": " + l.1
  }

  /** The formatted lines joined with `'\n'`. */
  function Join(ls: seq<Line>): (r: string)
    ensures ls == [] <==> r == ""
    ensures |ls| == 1 ==> r == Format(ls[0])
  {
    if ls == [] then ""
    else if |ls| == 1 then Format(ls[0])
    else Format(ls[0]) + "\n" + Join(ls[1..])
  }

  /** Joining one more line puts a newline and that line at the end. */
  lemma {:induction false} JoinAppend(ls: seq<Line>, l: Line)
    requires ls != []
    ensures Join(ls + [l]) == Join(ls) + "\n" + Format(l)
  {
    if |ls| == 1 {
      assert (ls + [l])[1..] == [l];
    } else {
      assert (ls + [l])[1..] == ls[1..] + [l];
      JoinAppend(ls[1..], l);
    }
  }

  /** The module's export: a string as it is, a buffer as its text, any
      other value flattened, sorted and joined. */
  function Stringify(x: Value): (r: Result<string>)
    ensures x.Str? ==> r == Ok(x.s)
    ensures x.Buffer? ==> r == Ok(Utf8.ToString(x.bytes))
    ensures (x.Null? || x.Undefined?) ==> r == Err(NullObject)
    ensures (x.Bool? || x.Number?) ==> r == Ok("")
    ensures x.Object? ==> (r.Ok? <==> Flat(x.entries, "").Ok?)
  {
    match x
    case Str(s) => Ok(s)
    case Buffer(b) => Ok(Utf8.ToString(b))
    case Null => Err(NullObject)
    case Undefined => Err(NullObject)
    case Bool(_) => Ok("")
    case Number(_) => Ok("")
    case Object(es) =>
      match Flat(es, "")
      case Err(m) => Err(m)
      case Ok(ls) => Ok(Join(Sort(ls)))
  }

  /** An object is printed as its flattened lines, sorted by path: the
      output is the join of a key-ordered permutation of `flatten`'s lines. */
  lemma StringifyObject(es: seq<(string, Value)>)
    requires Flat(es, "").Ok?
    ensures exists ls :: Stringify(Object(es)) == Ok(Join(ls)) && Sorted(ls) &&
      multiset(ls) == multiset(Flat(es, "").value)
  {
    var ls := Sort(Flat(es, "").value);
    assert Stringify(Object(es)) == Ok(Join(ls));
  }
}
