/** bin/validate.js: the command line's argument checks. Each option has a
    validator; `validate(usage)(obj)` checks the entries of `obj` in order and
    throws on the first one that fails: a key without a validator gives
    'Unrecognized key', and a validator's message is followed by a blank line
    and the usage text. */
module CliValidate {
  import opened Common
  import opened Js

  const UnrecognizedKey: string := "Unrecognized key"

  /** `message + '\n\n' + usage`. */
  function WithUsage(message: string, usage: string): string {
    message + "\n\n" + usage
  }

  /** The check shared by `filename`, `password` and bin/util/validator.js's
      `path`: `typeof v !== 'string' || !v` throws. */
  function NonEmptyString(name: string, v: Value): (r: Result<Unit>)
    ensures r.Ok? <==> v.Str? && v.s != ""
    ensures r.Err? ==> r.msg == "Expected " + name + " to be a non-empty string"
  {
    if v.Str? && v.s != "" then Ok(Unit) else Err("Expected " + name + " to be a non-empty string")
  }

  /** `!Number.isInteger(v) || v <= 0` throws. */
  function PositiveInteger(v: Value): (r: Result<Unit>)
    ensures r.Ok? <==> IsInteger(v) && v.n > 0.0
    ensures r.Err? ==> r.msg == "Expected length to be an integer > 0"
  {
    if IsInteger(v) && v.n > 0.0 then Ok(Unit) else Err("Expected length to be an integer > 0")
  }

  /** `v !== 'yes' && v !== 'no'` throws. */
  function YesNo(name: string, v: Value): (r: Result<Unit>)
    ensures r.Ok? <==> v == Str("yes") || v == Str("no")
    ensures r.Err? ==> r.msg == "Expected " + name + " to be 'yes' or 'no'"
  {
    if v == Str("yes") || v == Str("no") then Ok(Unit) else Err("Expected " + name + " to be 'yes' or 'no'")
  }

  /** `validators[key]`: the five options that have a validator. */
  predicate Known(key: string) {
    key == "dump" || key == "filename" || key == "length" || key == "overwrite" || key == "password"
  }

  /** `validators[key](value)` for a known key. */
  function Run(key: string, value: Value): (r: Result<Unit>)
    requires Known(key)
  {
    if key == "dump" then YesNo("dump", value)
    else if key == "filename" then NonEmptyString("filename", value)
    else if key == "length" then PositiveInteger(value)
    else if key == "overwrite" then YesNo("overwrite", value)
    else NonEmptyString("password", value)
  }

  /** One entry of the `forEach`: the unknown key is thrown before the `try`,
      so only a validator's own message gets the usage suffix. */
  function Entry(usage: string, key: string, value: Value): (r: Result<Unit>)
    ensures !Known(key) ==> r == Err(UnrecognizedKey)
    ensures Known(key) && Run(key, value).Err? ==> r == Err(WithUsage(Run(key, value).msg, usage))
    ensures Known(key) && Run(key, value).Ok? ==> r == Ok(Unit)
  {
    if !Known(key) then Err(UnrecognizedKey)
    else match Run(key, value)
      case Err(m) => Err(WithUsage(m, usage))
      case Ok(_) => Ok(Unit)
  }

  /** `validate(usage)(obj)` on `Object.entries(obj)`: it passes exactly
      when every entry passes, and otherwise reports the first entry that
      fails. */
  function Validate(usage: string, entries: seq<(string, Value)>): (r: Result<Unit>)
    ensures r.Ok? <==> forall i :: 0 <= i < |entries| ==> Entry(usage, entries[i].0, entries[i].1).Ok?
    ensures r.Err? ==> exists i :: (0 <= i < |entries| && Entry(usage, entries[i].0, entries[i].1) == r &&
      forall j :: 0 <= j < i ==> Entry(usage, entries[j].0, entries[j].1).Ok?)
  {
    if entries == [] then Ok(Unit)
    else
      match Entry(usage, entries[0].0, entries[0].1)
      case Err(m) => Err(m)
      case Ok(_) =>
        var r := Validate(usage, entries[1..]);
        assert forall i :: 1 <= i < |entries| ==> entries[i] == entries[1..][i - 1];
        if r.Err? then
          assert exists i :: (1 <= i < |entries| && Entry(usage, entries[i].0, entries[i].1) == r &&
            forall j :: 0 <= j < i ==> Entry(usage, entries[j].0, entries[j].1).Ok?) by {
            var k :| 0 <= k < |entries[1..]| && Entry(usage, entries[1..][k].0, entries[1..][k].1) == r &&
              forall j :: 0 <= j < k ==> Entry(usage, entries[1..][j].0, entries[1..][j].1).Ok?;
            assert Entry(usage, entries[k + 1].0, entries[k + 1].1) == r;
          }
          r
        else r
  }

  /** A first entry the validators reject decides the error, whatever follows;
      an unknown key's error never carries the usage text. */
  lemma FirstFailureWins(usage: string, key: string, value: Value, rest: seq<(string, Value)>)
    requires Entry(usage, key, value).Err?
    ensures Validate(usage, [(key, value)] + rest) == Entry(usage, key, value)
    ensures !Known(key) ==> Validate(usage, [(key, value)] + rest) == Err(UnrecognizedKey)
  {
    assert ([(key, value)] + rest)[0] == (key, value);
  }

  /** Passing entries in front of the rest change nothing. */
  lemma {:induction false} ValidatePrefix(usage: string, ok: seq<(string, Value)>, rest: seq<(string, Value)>)
    requires forall i :: 0 <= i < |ok| ==> Entry(usage, ok[i].0, ok[i].1).Ok?
    ensures Validate(usage, ok + rest) == Validate(usage, rest)
  {
    if ok != [] {
      assert (ok + rest)[0] == ok[0];
      assert (ok + rest)[1..] == ok[1..] + rest;
      assert forall i :: 0 <= i < |ok[1..]| ==> ok[1..][i] == ok[i + 1];
      assert Entry(usage, ok[0].0, ok[0].1).Ok?;
      ValidatePrefix(usage, ok[1..], rest);
    } else {
      assert ok + rest == rest;
    }
  }
}
