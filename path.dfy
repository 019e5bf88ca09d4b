/** lib/path.js: file names in an encrypted tree. `encryptPath` keeps the
    directory of a path and replaces its base name by the base name's sealed
    text, in which the first `/` (the regular expression has no `g` flag) is
    turned into `-`; `decryptPath` undoes that one substitution and opens the
    result.

    The sealing and opening of a base name under the password are the
    parameters `seal` and `open`; `path.parse` is modelled on POSIX paths and
    `path.join` on the two parts it is given. */
module LibPath {
  import opened Common
  import Utf8

  /** `crypto.encrypt(base, password)` and `crypto.decrypt(base, password)`
      for one password. */
  datatype Bundler = Bundler(seal: string -> string, open: string -> Result<Bytes>)

  /** The index of the first `c` in `s`, or `|s|` when there is none. */
  function IndexOf(s: string, c: char): (i: nat)
    ensures i <= |s|
    ensures i < |s| ==> s[i] == c
    ensures forall j :: 0 <= j < i ==> s[j] != c
  {
    if s == [] then 0
    else if s[0] == c then 0
    else 1 + IndexOf(s[1..], c)
  }

  /** `s.replace(/c/, d)`: the first `c`, and only that one, becomes `d`. */
  function ReplaceFirst(s: string, c: char, d: char): (r: string)
    ensures |r| == |s|
    ensures c !in s ==> r == s
    ensures forall j :: 0 <= j < |s| && j != IndexOf(s, c) ==> r[j] == s[j]
    ensures IndexOf(s, c) < |s| ==> r[IndexOf(s, c)] == d
  {
    var i := IndexOf(s, c);
    if i == |s| then s else s[..i] + [d] + s[i + 1..]
  }

  /** No two positions of `s` hold `c`. */
  predicate AtMostOne(s: string, c: char) {
    forall i, j :: 0 <= i < j < |s| && s[i] == c ==> s[j] != c
  }

  /** After the substitution no `/` is left exactly when there was at most
      one. */
  lemma SlashFree(s: string)
    ensures '/' !in ReplaceFirst(s, '/', '-') <==> AtMostOne(s, '/')
  {
    var r := ReplaceFirst(s, '/', '-');
    var i := IndexOf(s, '/');
    if '/' in r {
      var j :| 0 <= j < |r| && r[j] == '/';
      assert j != i && s[j] == '/';
      assert i < j;
      assert !AtMostOne(s, '/');
    }
    if !AtMostOne(s, '/') {
      var a, b :| 0 <= a < b < |s| && s[a] == '/' && s[b] == '/';
      assert i <= a < b;
      assert r[b] == '/';
    }
  }

  /** Turning the first `-` back into `/` undoes the substitution when the
      sealed text has no `-` of its own, as base64 text has not. */
  lemma UnswapSwap(s: string)
    requires '-' !in s
    ensures ReplaceFirst(ReplaceFirst(s, '/', '-'), '-', '/') == s
  {
    var r := ReplaceFirst(s, '/', '-');
    var t := ReplaceFirst(r, '-', '/');
    var i := IndexOf(s, '/');
    if i < |s| {
      assert IndexOf(r, '-') == i by {
        forall j | 0 <= j < i ensures r[j] != '-' {
          assert r[j] == s[j];
        }
      }
    } else {
      assert r == s;
    }
    assert |t| == |s|;
    forall j | 0 <= j < |s| ensures t[j] == s[j] {
    }
  }

  /** The end of `p` with its trailing separators (at or after `start`)
      dropped. */
  function TrimEnd(p: string, start: nat, e: nat): (end: nat)
    requires start <= e <= |p|
    ensures start <= end <= e
    ensures end == start || p[end - 1] != '/'
    ensures forall k :: end <= k < e ==> p[k] == '/'
    decreases e
  {
    if e == start || p[e - 1] != '/' then e else TrimEnd(p, start, e - 1)
  }

  /** The last separator in `p[start..end]`, if there is one. */
  function LastSlash(p: string, start: nat, end: nat): (r: Option<nat>)
    requires start <= end <= |p|
    ensures r.Some? ==> start <= r.value < end && p[r.value] == '/'
    ensures r.Some? ==> forall k :: r.value < k < end ==> p[k] != '/'
    ensures r.None? ==> forall k :: start <= k < end ==> p[k] != '/'
    decreases end
  {
    if end == start then None
    else if p[end - 1] == '/' then Some(end - 1)
    else LastSlash(p, start, end - 1)
  }

  /** `path.parse(p)`'s `dir` and `base` (POSIX rules): trailing separators
      are ignored, the base is what follows the last separator before them,
      and the directory is what precedes that separator, or `/` for a name
      directly under the root. */
  function ParsePath(p: string): (r: (string, string))
    ensures '/' !in r.1
  {
    if p == "" then ("", "")
    else
      var start: nat := if p[0] == '/' then 1 else 0;
      var end := TrimEnd(p, start, |p|);
      match LastSlash(p, start, end)
      case Some(i) => (p[..i], p[i + 1..end])
      case None => (if start == 1 then "/" else "", p[start..end])
  }

  /** `path.join(dir, base)` on a directory and one further name. */
  function Join(dir: string, base: string): string {
    if dir == "" then (if base == "" then "." else base)
    else if base == "" then dir
    else if dir[|dir| - 1] == '/' then dir + base
    else dir + "/" + base
  }

  /** A directory `path.parse` gives for a path without repeated separators. */
  predicate PlainDir(dir: string) {
    dir == "" || dir == "/" || dir[|dir| - 1] != '/'
  }

  /** A base name without separators joined to a plain directory parses back
      into the two. */
  lemma ParseJoin(dir: string, base: string)
    requires PlainDir(dir) && base != "" && '/' !in base
    ensures ParsePath(Join(dir, base)) == (dir, base)
  {
    var p := Join(dir, base);
    if dir == "" {
      assert p == base && p[0] != '/';
      assert TrimEnd(p, 0, |p|) == |p|;
      assert p[0..|p|] == base;
    } else if dir == "/" {
      assert p == "/" + base;
      assert TrimEnd(p, 1, |p|) == |p|;
      assert LastSlash(p, 1, |p|).None? by {
        assert forall k :: 1 <= k < |p| ==> p[k] == base[k - 1];
      }
      assert p[1..|p|] == base;
    } else {
      assert p == dir + "/" + base;
      var start: nat := if p[0] == '/' then 1 else 0;
      assert TrimEnd(p, start, |p|) == |p|;
      assert forall k :: |dir| < k < |p| ==> p[k] == base[k - |dir| - 1];
      assert LastSlash(p, start, |p|) == Some(|dir|) by {
        LastSlashAt(p, start, |p|, |dir|);
      }
      assert p[..|dir|] == dir;
      assert p[|dir| + 1..|p|] == base;
    }
  }

  lemma {:induction false} LastSlashAt(p: string, start: nat, end: nat, i: nat)
    requires start <= i < end <= |p| && p[i] == '/'
    requires forall k :: i < k < end ==> p[k] != '/'
    ensures LastSlash(p, start, end) == Some(i)
    decreases end
  {
    if p[end - 1] != '/' {
      LastSlashAt(p, start, end - 1, i);
    }
  }

  /** The base name `encryptPath` writes: the sealed text with its first `/`
      turned into `-`. */
  function SealedName(n: Bundler, base: string): string {
    ReplaceFirst(n.seal(base), '/', '-')
  }

  /** `exports.encryptPath(pathname, password)`. The written path keeps the
      directory, and its base is the sealed name whenever that name is a
      single non-empty component. */
  function EncryptPath(n: Bundler, pathname: string): (r: string)
    ensures var (dir, base) := ParsePath(pathname);
      var name := SealedName(n, base);
      name != "" && '/' !in name && PlainDir(dir) ==> ParsePath(r) == (dir, name)
  {
    var (dir, base) := ParsePath(pathname);
    var name := SealedName(n, base);
    assert name != "" && '/' !in name && PlainDir(dir) ==> ParsePath(Join(dir, name)) == (dir, name) by {
      if name != "" && '/' !in name && PlainDir(dir) {
        ParseJoin(dir, name);
      }
    }
    Join(dir, name)
  }

  /** `exports.decryptPath(pathname, password)`: errors of `crypto.decrypt`
      pass through. */
  function DecryptPath(n: Bundler, pathname: string): (r: Result<string>)
    ensures r.Err? <==> n.open(ReplaceFirst(ParsePath(pathname).1, '-', '/')).Err?
    ensures r.Err? ==> r.msg == n.open(ReplaceFirst(ParsePath(pathname).1, '-', '/')).msg
  {
    var (dir, base) := ParsePath(pathname);
    match n.open(ReplaceFirst(base, '-', '/'))
    case Err(m) => Err(m)
    case Ok(plain) => Ok(Join(dir, Utf8.ToString(plain)))
  }

  /** With a sealed text free of `-` and with at most one `/`, and a bundler
      that opens what it sealed, `decryptPath(encryptPath(p))` rebuilds the
      path from its directory and base. */
  lemma DecryptEncryptPath(n: Bundler, pathname: string)
    requires var (dir, base) := ParsePath(pathname);
      PlainDir(dir) && n.seal(base) != "" && '-' !in n.seal(base) && AtMostOne(n.seal(base), '/') &&
      n.open(n.seal(base)) == Ok(Utf8.Encode(base))
    ensures var (dir, base) := ParsePath(pathname);
      DecryptPath(n, EncryptPath(n, pathname)) == Ok(Join(dir, base))
  {
    var (dir, base) := ParsePath(pathname);
    var s := n.seal(base);
    SlashFree(s);
    var name := SealedName(n, base);
    assert '/' !in name && name != "";
    UnswapSwap(s);
    Utf8.ToStringEncode(base);
  }

  /** With two or more `/` in the sealed text, the written name still holds
      one, so the base `decryptPath` reads back is not the name written. */
  lemma TwoSlashesBreak(n: Bundler, pathname: string)
    requires !AtMostOne(n.seal(ParsePath(pathname).1), '/')
    ensures '/' in SealedName(n, ParsePath(pathname).1)
    ensures ParsePath(EncryptPath(n, pathname)).1 != SealedName(n, ParsePath(pathname).1)
  {
    SlashFree(n.seal(ParsePath(pathname).1));
  }
}
