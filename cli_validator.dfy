/** bin/util/validator.js: the single-option check of the newer command
    line. `validator(usage)(key, value)` runs `validators[key](value)` inside a
    `try`, so every failure, the call of a missing validator included, is
    rethrown with a blank line and the usage text after its message. */
module CliValidator {
  import opened Common
  import opened Js
  import CliValidate

  /** The message of the `TypeError` that calling `validators[key]` raises
      when it is `undefined`. */
  const NotAFunction: string := "validators[key] is not a function"

  predicate Known(key: string) {
    key == "path" || key == "length" || key == "password"
  }

  /** `validators[key](value)`, throwing for a key without a validator. */
  function Run(key: string, value: Value): (r: Result<Unit>)
    ensures !Known(key) ==> r == Err(NotAFunction)
    ensures key == "path" ==> r == CliValidate.NonEmptyString("path", value)
    ensures key == "length" ==> r == CliValidate.PositiveInteger(value)
    ensures key == "password" ==> r == CliValidate.NonEmptyString("password", value)
  {
    if key == "path" then CliValidate.NonEmptyString("path", value)
    else if key == "length" then CliValidate.PositiveInteger(value)
    else if key == "password" then CliValidate.NonEmptyString("password", value)
    else Err(NotAFunction)
  }

  /** `validator(usage)(key, value)`. */
  function Validate(usage: string, key: string, value: Value): (r: Result<Unit>)
    ensures r.Ok? <==> Run(key, value).Ok?
    ensures r.Err? ==> r.msg == CliValidate.WithUsage(Run(key, value).msg, usage)
  {
    match Run(key, value)
    case Err(m) => Err(CliValidate.WithUsage(m, usage))
    case Ok(_) => Ok(Unit)
  }

  /** What each option accepts, and that every rejection ends with the usage
      text. */
  lemma Accepts(usage: string, key: string, value: Value)
    ensures key == "path" || key == "password" ==> (Validate(usage, key, value).Ok? <==> value.Str? && value.s != "")
    ensures key == "length" ==> (Validate(usage, key, value).Ok? <==> IsInteger(value) && value.n > 0.0)
    ensures !Known(key) ==> Validate(usage, key, value) == Err(NotAFunction + "\n\n" + usage)
    ensures Validate(usage, key, value).Err? ==>
      var m := Validate(usage, key, value).msg;
      |m| >= |usage| + 2 && m[|m| - |usage| - 2..] == "\n\n" + usage
  {
    if Validate(usage, key, value).Err? {
      var m := Validate(usage, key, value).msg;
      var p := Run(key, value).msg;
      assert m == p + ("\n\n" + usage);
      assert m[|p|..] == "\n\n" + usage;
    }
  }
}
