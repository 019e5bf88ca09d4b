/** lib/passworld.js: the module-level `descriptions` table, which maps a
    service name to a recrypt bundle of that service's secret, and the
    operations `write`, `create`, `read`, `update` and `delete` on it.

    The table is the field `descriptions` of a `Vault`. Each operation is a
    method that changes the field in place, specified by a step function
    from the old table to the result and the new table; the properties the
    operations promise are lemmas about the step functions. The random bytes
    behind a secret and the three draws inside `recrypt.encrypt` are
    parameters. */
module LibPassworld {
  import opened Common
  import opened Primitives
  import Base64
  import Recrypt

  type Table = map<string, string>

  /** The checks lib/passworld.js calls before anything else:
      `util.validateService`, `util.validatePassphrase` and
      `util.validateLength`. They live in a util module that is not part of
      this model, so they are parameters; each gives `Err(message)` where the
      original throws. */
  datatype Checks = Checks(
    service: string -> Result<Unit>,
    passphrase: string -> Result<Unit>,
    length: int -> Result<Unit>)

  /** What `crypto.randomBytes` throws for a negative size. */
  const SizeOutOfRange: string := "The value of \"size\" is out of range."
  const UpdateDenied: string := "Invalid passphrase: cannot update password"
  const DeleteDenied: string := "Invalid passphrase: cannot delete password"

  function AlreadyExists(service: string): string {
    "Password already exists for service '" + service + "'"
  }

  function NoPassword(service: string): string {
    "No password for service '" + service + "'"
  }

  /** `descriptions[service]` is truthy: the entry is there and not `''`. */
  predicate Stored(ds: Table, service: string) {
    service in ds && ds[service] != ""
  }

  /** `Math.floor(length * 3 / 4)`: the number of random bytes drawn for a
      secret of `length` characters. */
  function RandomSize(length: int): int {
    (3 * length) / 4
  }

  /** `plaintext.toString('base64').split('=').shift()`: the base64 text of the
      random bytes without its padding. */
  function Secret(random: Bytes): (secret: string)
    ensures |secret| == CeilDiv(4 * |random|, 3)
    ensures forall i :: 0 <= i < |secret| ==> Base64.InAlphabet(secret[i]) && secret[i] != '='
  {
    var text := Base64.Encode(random);
    Base64.UnpaddedLength(random);
    Base64.EncodeAlphabet(random);
    Base64.BeforeFirstPad(text)
  }

  /** The secret is `length` characters long, except that a length one more
      than a multiple of four gives one character fewer. */
  lemma SecretLength(length: int, random: Bytes)
    requires RandomSize(length) >= 0 && |random| == RandomSize(length)
    ensures |Secret(random)| == if length % 4 == 1 then length - 1 else length
  {
    var k, m := length / 4, length % 4;
    assert length == 4 * k + m && 0 <= m < 4;
    assert 3 * length == 4 * (3 * k) + 3 * m;
    if m == 0 {
      assert RandomSize(length) == 3 * k;
      assert 4 * |random| == 3 * (4 * k);
    } else if m == 1 {
      assert 3 * length == 4 * (3 * k) + 3;
      assert RandomSize(length) == 3 * k;
      assert 4 * |random| == 3 * (4 * k);
    } else if m == 2 {
      assert 3 * length == 4 * (3 * k + 1) + 2;
      assert RandomSize(length) == 3 * k + 1;
      assert 4 * |random| == 3 * (4 * k + 1) + 1;
    } else {
      assert 3 * length == 4 * (3 * k + 2) + 1;
      assert RandomSize(length) == 3 * k + 2;
      assert 4 * |random| == 3 * (4 * k + 2) + 2;
    }
  }

  /** The bundle `write` stores for a secret drawn from `random`. */
  function Bundle(c: Suite, passphrase: string, random: Bytes, salt1: Bytes, salt2: Bytes, nonce: Bytes): (b: string)
    requires |salt1| == 16 && |salt2| == 32 && |nonce| == 16
    ensures b != ""
  {
    Recrypt.Encrypt(c, Recrypt.Raw(random), Recrypt.Text(passphrase), salt1, salt2, nonce)
  }

  /** `write(service, passphrase, n)`: draw `n` random bytes, store their
      recrypt bundle under `service` and return the secret. A negative `n`
      makes `randomBytes` throw before the table is touched. */
  function WriteStep(c: Suite, ds: Table, service: string, passphrase: string, n: int,
                     random: Bytes, salt1: Bytes, salt2: Bytes, nonce: Bytes): (r: (Result<string>, Table))
    requires |salt1| == 16 && |salt2| == 32 && |nonce| == 16
    requires n >= 0 ==> |random| == n
    ensures r.0.Err? <==> n < 0
    ensures r.0.Err? ==> r.0.msg == SizeOutOfRange && r.1 == ds
    ensures r.0.Ok? ==> r.0.value == Secret(random)
    ensures r.0.Ok? ==> r.1.Keys == ds.Keys + {service}
    ensures r.0.Ok? ==> Stored(r.1, service) && r.1[service] == Bundle(c, passphrase, random, salt1, salt2, nonce)
    ensures forall k :: k in ds && k != service ==> k in r.1 && r.1[k] == ds[k]
  {
    if n < 0 then (Err(SizeOutOfRange), ds)
    else
      var bundle := Bundle(c, passphrase, random, salt1, salt2, nonce);
      (Ok(Secret(random)), ds[service := bundle])
  }

  /** `exports.create(service, passphrase, length)`: the three checks, then
      'Password already exists …' for a stored service, then `write` with
      `Math.floor(length * 3 / 4)` random bytes. */
  function CreateStep(c: Suite, v: Checks, ds: Table, service: string, passphrase: string, length: int,
                      random: Bytes, salt1: Bytes, salt2: Bytes, nonce: Bytes): (r: (Result<string>, Table))
    requires |salt1| == 16 && |salt2| == 32 && |nonce| == 16
    requires RandomSize(length) >= 0 ==> |random| == RandomSize(length)
    ensures r.0.Err? ==> r.1 == ds
    ensures FirstError([v.service(service), v.passphrase(passphrase), v.length(length)]).Some? ==>
      r.0 == Err(FirstError([v.service(service), v.passphrase(passphrase), v.length(length)]).value)
    ensures FirstError([v.service(service), v.passphrase(passphrase), v.length(length)]).None? && Stored(ds, service) ==>
      r.0 == Err(AlreadyExists(service))
    ensures r.0.Ok? <==>
      v.service(service).Ok? && v.passphrase(passphrase).Ok? && v.length(length).Ok? &&
      !Stored(ds, service) && length >= 0
    ensures r.0.Ok? ==> (r.0.value == Secret(random) &&
      r.1 == ds[service := Bundle(c, passphrase, random, salt1, salt2, nonce)])
  {
    var checks := [v.service(service), v.passphrase(passphrase), v.length(length)];
    match FirstError(checks)
    case Some(m) => (Err(m), ds)
    case None =>
      assert checks[0].Ok? && checks[1].Ok? && checks[2].Ok?;
      if Stored(ds, service) then (Err(AlreadyExists(service)), ds)
      else WriteStep(c, ds, service, passphrase, RandomSize(length), random, salt1, salt2, nonce)
  }

  /** `recrypt.decrypt(descriptions[service], passphrase, 'base64')`: base64 text. */
  function Unsealed(c: Suite, description: string, passphrase: string): (r: Result<Recrypt.Output>)
    ensures r.Ok? ==> r.value.Decoded?
  {
    Recrypt.Decrypt(c, description, Recrypt.Text(passphrase), Some(Recrypt.Base64Text))
  }

  /** The secret `read` returns for a stored bundle: its base64 text with the
      padding cut off, or the error of `recrypt.decrypt`. */
  function Opened(c: Suite, description: string, passphrase: string): (r: Result<string>)
    ensures r.Ok? <==> Unsealed(c, description, passphrase).Ok?
    ensures r.Ok? ==> r.value == Base64.BeforeFirstPad(Unsealed(c, description, passphrase).value.text)
    ensures r.Ok? ==> forall i :: 0 <= i < |r.value| ==> r.value[i] != '='
    ensures r.Err? ==> r.msg == Unsealed(c, description, passphrase).msg
  {
    match Unsealed(c, description, passphrase)
    case Err(m) => Err(m)
    case Ok(out) => Ok(Base64.BeforeFirstPad(out.text))
  }

  /** `exports.read(service, passphrase)`: the two checks, 'No password …' for
      a service not stored, then the bundle decrypted to base64 text, whose
      padding is cut off. Errors of `recrypt.decrypt` pass through. */
  function Read(c: Suite, v: Checks, ds: Table, service: string, passphrase: string): (r: Result<string>)
    ensures FirstError([v.service(service), v.passphrase(passphrase)]).Some? ==>
      r == Err(FirstError([v.service(service), v.passphrase(passphrase)]).value)
    ensures FirstError([v.service(service), v.passphrase(passphrase)]).None? && !Stored(ds, service) ==>
      r == Err(NoPassword(service))
    ensures r.Ok? <==>
      v.service(service).Ok? && v.passphrase(passphrase).Ok? && Stored(ds, service) &&
      Unsealed(c, ds[service], passphrase).Ok?
    ensures r.Ok? ==> forall i :: 0 <= i < |r.value| ==> r.value[i] != '='
    ensures r.Ok? ==>
      r.value == Base64.BeforeFirstPad(Unsealed(c, ds[service], passphrase).value.text)
    ensures (FirstError([v.service(service), v.passphrase(passphrase)]).None? && Stored(ds, service) &&
      Unsealed(c, ds[service], passphrase).Err?) ==>
      r == Err(Unsealed(c, ds[service], passphrase).msg)
  {
    FirstErrorPair(v.service(service), v.passphrase(passphrase));
    match FirstError([v.service(service), v.passphrase(passphrase)])
    case Some(m) => Err(m)
    case None =>
      if !Stored(ds, service) then Err(NoPassword(service))
      else Opened(c, ds[service], passphrase)
  }

  /** The passphrase that seals the new secret: `newPassphrase`, which
      defaults to `passphrase`. */
  function NewPassphrase(passphrase: string, newPassphrase: Option<string>): (w: string)
    ensures newPassphrase.None? ==> w == passphrase
    ensures newPassphrase.Some? ==> w == newPassphrase.value
  {
    if newPassphrase.Some? then newPassphrase.value else passphrase
  }

  function UpdateChecks(v: Checks, service: string, passphrase: string, length: int,
                        newPassphrase: Option<string>): seq<Result<Unit>> {
    [v.service(service), v.passphrase(passphrase), v.length(length),
     v.passphrase(NewPassphrase(passphrase, newPassphrase))]
  }

  /** `exports.update(service, passphrase, length, newPassphrase)`: the four
      checks, 'No password …', the old passphrase gate, then `write` under
      the new passphrase. */
  function UpdateStep(c: Suite, v: Checks, ds: Table, service: string, passphrase: string, length: int,
                      newPassphrase: Option<string>, random: Bytes, salt1: Bytes, salt2: Bytes, nonce: Bytes)
    : (r: (Result<string>, Table))
    requires |salt1| == 16 && |salt2| == 32 && |nonce| == 16
    requires RandomSize(length) >= 0 ==> |random| == RandomSize(length)
    ensures r.0.Err? ==> r.1 == ds
    ensures FirstError(UpdateChecks(v, service, passphrase, length, newPassphrase)).Some? ==>
      r.0 == Err(FirstError(UpdateChecks(v, service, passphrase, length, newPassphrase)).value)
    ensures FirstError(UpdateChecks(v, service, passphrase, length, newPassphrase)).None? && !Stored(ds, service) ==>
      r.0 == Err(NoPassword(service))
    ensures (FirstError(UpdateChecks(v, service, passphrase, length, newPassphrase)).None? && Stored(ds, service) &&
      Unsealed(c, ds[service], passphrase).Err?) ==>
      r.0 == Err(UpdateDenied)
    ensures (FirstError(UpdateChecks(v, service, passphrase, length, newPassphrase)).None? && Stored(ds, service) &&
      Unsealed(c, ds[service], passphrase).Ok? && RandomSize(length) < 0) ==>
      r.0 == Err(SizeOutOfRange)
    ensures r.0.Ok? <==> (FirstError(UpdateChecks(v, service, passphrase, length, newPassphrase)).None? &&
      Stored(ds, service) && Unsealed(c, ds[service], passphrase).Ok? &&
      RandomSize(length) >= 0)
    ensures r.0.Ok? ==> (r.0.value == Secret(random) &&
      r.1 == ds[service := Bundle(c, NewPassphrase(passphrase, newPassphrase), random, salt1, salt2, nonce)])
  {
    var checks := UpdateChecks(v, service, passphrase, length, newPassphrase);
    match FirstError(checks)
    case Some(m) => (Err(m), ds)
    case None =>
      if !Stored(ds, service) then (Err(NoPassword(service)), ds)
      else if Unsealed(c, ds[service], passphrase).Err? then
        (Err(UpdateDenied), ds)
      else
        WriteStep(c, ds, service, NewPassphrase(passphrase, newPassphrase), RandomSize(length),
                  random, salt1, salt2, nonce)
  }

  /** `exports.delete(service, passphrase)`: the two checks, 'No password …',
      the passphrase gate, then the one entry removed. */
  function DeleteStep(c: Suite, v: Checks, ds: Table, service: string, passphrase: string): (r: (Result<Unit>, Table))
    ensures r.0.Err? ==> r.1 == ds
    ensures FirstError([v.service(service), v.passphrase(passphrase)]).Some? ==>
      r.0 == Err(FirstError([v.service(service), v.passphrase(passphrase)]).value)
    ensures FirstError([v.service(service), v.passphrase(passphrase)]).None? && !Stored(ds, service) ==>
      r.0 == Err(NoPassword(service))
    ensures (FirstError([v.service(service), v.passphrase(passphrase)]).None? && Stored(ds, service) &&
      Unsealed(c, ds[service], passphrase).Err?) ==>
      r.0 == Err(DeleteDenied)
    ensures r.0.Ok? <==>
      v.service(service).Ok? && v.passphrase(passphrase).Ok? && Stored(ds, service) &&
      Unsealed(c, ds[service], passphrase).Ok?
    ensures r.0.Ok? ==> r.1.Keys == ds.Keys - {service}
    ensures forall k :: k in ds && k != service ==> k in r.1 && r.1[k] == ds[k]
  {
    FirstErrorPair(v.service(service), v.passphrase(passphrase));
    match FirstError([v.service(service), v.passphrase(passphrase)])
    case Some(m) => (Err(m), ds)
    case None =>
      if !Stored(ds, service) then (Err(NoPassword(service)), ds)
      else if Unsealed(c, ds[service], passphrase).Err? then
        (Err(DeleteDenied), ds)
      else
        (Ok(Unit), ds - {service})
  }

  // ---- properties relating the operations ----

  /** A created secret has `length` characters, or `length - 1` when
      `length % 4 == 1`. */
  lemma CreateSecretLength(c: Suite, v: Checks, ds: Table, service: string, passphrase: string, length: int,
                           random: Bytes, salt1: Bytes, salt2: Bytes, nonce: Bytes)
    requires |salt1| == 16 && |salt2| == 32 && |nonce| == 16
    requires RandomSize(length) >= 0 ==> |random| == RandomSize(length)
    requires CreateStep(c, v, ds, service, passphrase, length, random, salt1, salt2, nonce).0.Ok?
    ensures var secret := CreateStep(c, v, ds, service, passphrase, length, random, salt1, salt2, nonce).0.value;
      |secret| == if length % 4 == 1 then length - 1 else length
  {
    SecretLength(length, random);
  }

  /** The same holds for the secret `update` draws. */
  lemma UpdateSecretLength(c: Suite, v: Checks, ds: Table, service: string, passphrase: string, length: int,
                           newPassphrase: Option<string>, random: Bytes, salt1: Bytes, salt2: Bytes, nonce: Bytes)
    requires |salt1| == 16 && |salt2| == 32 && |nonce| == 16
    requires RandomSize(length) >= 0 ==> |random| == RandomSize(length)
    requires UpdateStep(c, v, ds, service, passphrase, length, newPassphrase, random, salt1, salt2, nonce).0.Ok?
    ensures var secret := UpdateStep(c, v, ds, service, passphrase, length, newPassphrase, random, salt1, salt2, nonce).0.value;
      |secret| == if length % 4 == 1 then length - 1 else length
  {
    assert RandomSize(length) >= 0;
    SecretLength(length, random);
  }

  /** A stored bundle read back under the passphrase that sealed it gives the
      secret `write` returned. */
  lemma ReadWritten(c: Suite, v: Checks, ds: Table, service: string, passphrase: string,
                    random: Bytes, salt1: Bytes, salt2: Bytes, nonce: Bytes)
    requires Sound(c) && |salt1| == 16 && |salt2| == 32 && |nonce| == 16
    requires v.service(service).Ok? && v.passphrase(passphrase).Ok?
    ensures Read(c, v, ds[service := Bundle(c, passphrase, random, salt1, salt2, nonce)], service, passphrase)
      == Ok(Secret(random))
  {
    var ds' := ds[service := Bundle(c, passphrase, random, salt1, salt2, nonce)];
    assert Stored(ds', service);
    Recrypt.DecryptEncrypt(c, Recrypt.Raw(random), Recrypt.Text(passphrase), salt1, salt2, nonce, Some(Recrypt.Base64Text));
    var checks := [v.service(service), v.passphrase(passphrase)];
    assert FirstError(checks).None?;
  }

  /** `read(s, w)` after `create(s, w, n)` returns the string `create`
      returned. */
  lemma ReadAfterCreate(c: Suite, v: Checks, ds: Table, service: string, passphrase: string, length: int,
                        random: Bytes, salt1: Bytes, salt2: Bytes, nonce: Bytes)
    requires Sound(c) && |salt1| == 16 && |salt2| == 32 && |nonce| == 16
    requires RandomSize(length) >= 0 ==> |random| == RandomSize(length)
    requires CreateStep(c, v, ds, service, passphrase, length, random, salt1, salt2, nonce).0.Ok?
    ensures var (r, ds') := CreateStep(c, v, ds, service, passphrase, length, random, salt1, salt2, nonce);
      Read(c, v, ds', service, passphrase) == r
  {
    ReadWritten(c, v, ds, service, passphrase, random, salt1, salt2, nonce);
  }

  /** After a successful `update`, `read` with the new passphrase returns the
      new secret. */
  lemma ReadAfterUpdate(c: Suite, v: Checks, ds: Table, service: string, passphrase: string, length: int,
                        newPassphrase: Option<string>, random: Bytes, salt1: Bytes, salt2: Bytes, nonce: Bytes)
    requires Sound(c) && |salt1| == 16 && |salt2| == 32 && |nonce| == 16
    requires RandomSize(length) >= 0 ==> |random| == RandomSize(length)
    requires UpdateStep(c, v, ds, service, passphrase, length, newPassphrase, random, salt1, salt2, nonce).0.Ok?
    ensures var (r, ds') := UpdateStep(c, v, ds, service, passphrase, length, newPassphrase, random, salt1, salt2, nonce);
      Read(c, v, ds', service, NewPassphrase(passphrase, newPassphrase)) == r
  {
    var np := NewPassphrase(passphrase, newPassphrase);
    var checks := UpdateChecks(v, service, passphrase, length, newPassphrase);
    assert FirstError(checks).None?;
    assert checks[0].Ok? && checks[3].Ok?;
    ReadWritten(c, v, ds, service, np, random, salt1, salt2, nonce);
  }

  /** After a successful `delete`, `read` of that service finds nothing. */
  lemma ReadAfterDelete(c: Suite, v: Checks, ds: Table, service: string, passphrase: string, other: string)
    requires DeleteStep(c, v, ds, service, passphrase).0.Ok?
    ensures Read(c, v, DeleteStep(c, v, ds, service, passphrase).1, service, other) ==
      if v.passphrase(other).Ok? then Err(NoPassword(service)) else Err(v.passphrase(other).msg)
  {
    var checks := [v.service(service), v.passphrase(other)];
    if v.passphrase(other).Ok? {
      assert FirstError(checks).None?;
    } else {
      assert FirstError(checks) == Some(v.passphrase(other).msg) by {
        assert checks[0].Ok? && checks[1].Err?;
      }
    }
  }

  /** Creating, updating or deleting one service does not change what `read`
      gives for any other service. */
  lemma ReadOther(c: Suite, v: Checks, ds: Table, ds': Table, service: string, other: string, passphrase: string)
    requires other != service
    requires forall k :: k != service ==> (k in ds <==> k in ds') && (k in ds ==> ds[k] == ds'[k])
    ensures Read(c, v, ds', other, passphrase) == Read(c, v, ds, other, passphrase)
  {
    assert Stored(ds', other) <==> Stored(ds, other);
  }

  // ---- the module-level table ----

  class Vault {
    /** The `descriptions` table. */
    var descriptions: Table
    const c: Suite
    const checks: Checks

    /** A fresh module: `let descriptions = {}`. */
    constructor(c: Suite, checks: Checks)
      ensures descriptions == map[] && this.c == c && this.checks == checks
    {
      descriptions := map[];
      this.c := c;
      this.checks := checks;
    }

    method Write(service: string, passphrase: string, n: int, random: Bytes,
                 salt1: Bytes, salt2: Bytes, nonce: Bytes) returns (r: Result<string>)
      requires |salt1| == 16 && |salt2| == 32 && |nonce| == 16
      requires n >= 0 ==> |random| == n
      modifies this
      ensures (r, descriptions) == WriteStep(c, old(descriptions), service, passphrase, n, random, salt1, salt2, nonce)
    {
      if n < 0 {
        return Err(SizeOutOfRange);
      }
      descriptions := descriptions[service := Recrypt.Encrypt(c, Recrypt.Raw(random), Recrypt.Text(passphrase),
                                                               salt1, salt2, nonce)];
      r := Ok(Base64.BeforeFirstPad(Base64.Encode(random)));
    }

    method Create(service: string, passphrase: string, length: int, random: Bytes,
                  salt1: Bytes, salt2: Bytes, nonce: Bytes) returns (r: Result<string>)
      requires |salt1| == 16 && |salt2| == 32 && |nonce| == 16
      requires RandomSize(length) >= 0 ==> |random| == RandomSize(length)
      modifies this
      ensures (r, descriptions) ==
        CreateStep(c, checks, old(descriptions), service, passphrase, length, random, salt1, salt2, nonce)
    {
      var failure := FirstError([checks.service(service), checks.passphrase(passphrase), checks.length(length)]);
      if failure.Some? {
        return Err(failure.value);
      }
      var n := (3 * length) / 4;
      if service in descriptions && descriptions[service] != "" {
        return Err(AlreadyExists(service));
      }
      r := Write(service, passphrase, n, random, salt1, salt2, nonce);
    }

    method ReadSecret(service: string, passphrase: string) returns (r: Result<string>)
      ensures r == Read(c, checks, descriptions, service, passphrase)
    {
      var failure := FirstError([checks.service(service), checks.passphrase(passphrase)]);
      if failure.Some? {
        return Err(failure.value);
      }
      if !(service in descriptions && descriptions[service] != "") {
        return Err(NoPassword(service));
      }
      var decrypted := Recrypt.Decrypt(c, descriptions[service], Recrypt.Text(passphrase), Some(Recrypt.Base64Text));
      if decrypted.Err? {
        return Err(decrypted.msg);
      }
      r := Ok(Base64.BeforeFirstPad(decrypted.value.text));
    }

    method Update(service: string, passphrase: string, length: int, newPassphrase: Option<string>,
                  random: Bytes, salt1: Bytes, salt2: Bytes, nonce: Bytes) returns (r: Result<string>)
      requires |salt1| == 16 && |salt2| == 32 && |nonce| == 16
      requires RandomSize(length) >= 0 ==> |random| == RandomSize(length)
      modifies this
      ensures (r, descriptions) ==
        UpdateStep(c, checks, old(descriptions), service, passphrase, length, newPassphrase, random, salt1, salt2, nonce)
    {
      var np := if newPassphrase.Some? then newPassphrase.value else passphrase;
      var failure := FirstError([checks.service(service), checks.passphrase(passphrase), checks.length(length),
                                 checks.passphrase(np)]);
      if failure.Some? {
        return Err(failure.value);
      }
      if !(service in descriptions && descriptions[service] != "") {
        return Err(NoPassword(service));
      }
      var decrypted := Recrypt.Decrypt(c, descriptions[service], Recrypt.Text(passphrase), Some(Recrypt.Base64Text));
      if decrypted.Err? {
        return Err(UpdateDenied);
      }
      var n := (3 * length) / 4;
      r := Write(service, np, n, random, salt1, salt2, nonce);
    }

    method Delete(service: string, passphrase: string) returns (r: Result<Unit>)
      modifies this
      ensures (r, descriptions) == DeleteStep(c, checks, old(descriptions), service, passphrase)
    {
      var failure := FirstError([checks.service(service), checks.passphrase(passphrase)]);
      if failure.Some? {
        return Err(failure.value);
      }
      if !(service in descriptions && descriptions[service] != "") {
        return Err(NoPassword(service));
      }
      var decrypted := Recrypt.Decrypt(c, descriptions[service], Recrypt.Text(passphrase), Some(Recrypt.Base64Text));
      if decrypted.Err? {
        return Err(DeleteDenied);
      }
      descriptions := descriptions - {service};
      r := Ok(Unit);
    }
  }
}
