/** Shared vocabulary: bytes, optional values, and results that carry the
    source's error messages verbatim. */
module Common {

  /** One octet of a Node `Buffer`. */
  type byte = x: int | 0 <= x < 256

  type Bytes = seq<byte>

  datatype Option<+T> = None | Some(value: T)

  /** A thrown `Error` is `Err(message)`; a returned value is `Ok(value)`. */
  datatype Result<+T> = Ok(value: T) | Err(msg: string)

  /** The value a validator returns when it does not throw. */
  datatype Unit = Unit

  /** The first failure among validator calls made in order: the first
      `throw` ends the sequence. */
  function FirstError(checks: seq<Result<Unit>>): (m: Option<string>)
    ensures m.None? <==> forall i :: 0 <= i < |checks| ==> checks[i].Ok?
    ensures m.Some? ==> exists i :: 0 <= i < |checks| && checks[i] == Err(m.value) &&
                                   forall j :: 0 <= j < i ==> checks[j].Ok?
  {
    if checks == [] then None
    else if checks[0].Err? then Some(checks[0].msg)
    else
      var m := FirstError(checks[1..]);
      if m.Some? then
        ghost var i :| 0 <= i < |checks[1..]| && checks[1..][i] == Err(m.value) &&
                       forall j :: 0 <= j < i ==> checks[1..][j].Ok?;
        assert checks[i + 1] == Err(m.value);
        m
      else
        m
  }

  /** Two validator calls in order: the first one's error, else the second's. */
  lemma FirstErrorPair(a: Result<Unit>, b: Result<Unit>)
    ensures FirstError([a, b]) ==
      if a.Err? then Some(a.msg) else if b.Err? then Some(b.msg) else None
  {
    assert [a, b][1..] == [b];
    assert [b][1..] == [];
  }

  /** `Math.ceil(n / d)` for non-negative `n` and positive `d`. */
  function CeilDiv(n: nat, d: nat): (q: nat)
    requires d > 0
    ensures q * d >= n && (q == 0 || (q - 1) * d < n)
  {
    (n + d - 1) / d
  }

  /** `Buffer.prototype.slice(0, n)`: the first `n` bytes, or all of them. */
  function Take<T>(s: seq<T>, n: nat): (r: seq<T>)
    ensures |r| == if n <= |s| then n else |s|
    ensures r <= s
  {
    if n <= |s| then s[..n] else s
  }

  /** `Buffer.concat(blocks)`. */
  function Concat<T>(blocks: seq<seq<T>>): seq<T>
  {
    if blocks == [] then [] else Concat(blocks[..|blocks| - 1]) + blocks[|blocks| - 1]
  }

  lemma {:induction false} ConcatAppend<T>(blocks: seq<seq<T>>, b: seq<T>)
    ensures Concat(blocks + [b]) == Concat(blocks) + b
  {
    assert (blocks + [b])[..|blocks|] == blocks;
  }

  /** Concatenating a prefix of the blocks gives a prefix of the concatenation. */
  lemma {:induction false} ConcatPrefix<T>(blocks: seq<seq<T>>, k: nat)
    requires k <= |blocks|
    ensures Concat(blocks[..k]) <= Concat(blocks)
  {
    if k < |blocks| {
      ConcatPrefix(blocks[..|blocks| - 1], k);
      assert blocks[..|blocks| - 1][..k] == blocks[..k];
    } else {
      assert blocks[..k] == blocks;
    }
  }

  /** When every block has length `w`, the concatenation has length `w * |blocks|`. */
  lemma {:induction false} ConcatUniformLength<T>(blocks: seq<seq<T>>, w: nat)
    requires forall i :: 0 <= i < |blocks| ==> |blocks[i]| == w
    ensures |Concat(blocks)| == w * |blocks|
  {
    if blocks != [] {
      var n := |blocks| - 1;
      assert forall i :: 0 <= i < n ==> blocks[..n][i] == blocks[i];
      ConcatUniformLength(blocks[..n], w);
      assert |Concat(blocks)| == |Concat(blocks[..n])| + |blocks[n]|;
      assert w * (n + 1) == w * n + w;
    }
  }
}
