/** app/lib/passworld.js: one password-sealed file per name. The directory of
    files is the field `files` of a `Store`, a map from file name to the text
    written there: `readFile` fails exactly when the name is not a key, and
    `writeFile` and `unlink` update or remove one key. Each operation receives
    its parameter object already destructured, as the source's parameter
    pattern does: the named properties as JavaScript values (`undefined` when
    absent) and `rest`, the keys the `...rest` pattern collects. Each is
    specified by a step function from the old directory to the result and the
    new directory. The two `randomBytes(16)` draws of every `crypto.encrypt`
    are the `salt` and `nonce` parameters. */
module AppPassworld {
  import opened Common
  import opened Primitives
  import Utf8
  import Js
  import AppUtil
  import AppCrypto

  type Files = map<string, string>

  const FileExists: string := "File already exists"
  const FileNotFound: string := "File not found"
  const ReadDenied: string := "Cannot read file: invalid password"
  const UpdateDenied: string := "Cannot update file: invalid password"
  const DeleteDenied: string := "Cannot delete file: invalid password"
  const Created: string := "Successfully created file!"
  const Updated: string := "Successfully updated file!"
  const Deleted: string := "Successfully deleted file!"

  /** What `cipher.update(plaintext)` reads: a string's UTF-8 bytes, or the
      bytes of a buffer. Other values never pass `validatePlaintext`. A
      string's bytes decode back to the string. */
  function Payload(v: Js.Value): (p: Bytes)
    ensures v.Str? ==> Utf8.ToString(p) == v.s
    ensures v.Buffer? ==> p == v.bytes
  {
    match v
    case Str(s) =>
      Utf8.ToStringEncode(s);
      Utf8.Encode(s)
    case Buffer(b) => b
    case _ => []
  }

  /** The plaintext as `read` gives it back: a string stays itself and a
      buffer is decoded as UTF-8. */
  function Text(v: Js.Value): string {
    match v
    case Str(s) => s
    case Buffer(b) => Utf8.ToString(b)
    case _ => ""
  }

  lemma TextOfPayload(v: Js.Value)
    requires v.Str? || v.Buffer?
    ensures Utf8.ToString(Payload(v)) == Text(v)
  {
    if v.Str? {
      Utf8.ToStringEncode(v.s);
    }
  }

  /** A string parameter, once its validator has passed. */
  function Name(v: Js.Value): string {
    if v.Str? then v.s else ""
  }

  function CreateChecks(filename: Js.Value, password: Js.Value, plaintext: Js.Value, rest: set<string>)
    : seq<Result<Unit>>
  {
    [AppUtil.ValidateFilename(filename), AppUtil.ValidatePassword(password),
     AppUtil.ValidatePlaintext(plaintext), AppUtil.ValidateRest(rest)]
  }

  /** The checks of `read` and of `delete`. */
  function ReadChecks(filename: Js.Value, password: Js.Value, rest: set<string>): seq<Result<Unit>> {
    [AppUtil.ValidateFilename(filename), AppUtil.ValidatePassword(password), AppUtil.ValidateRest(rest)]
  }

  function UpdateChecks(filename: Js.Value, newPassword: Js.Value, oldPassword: Js.Value, plaintext: Js.Value,
                        rest: set<string>): seq<Result<Unit>>
  {
    [AppUtil.ValidateFilename(filename), AppUtil.ValidatePassword(newPassword),
     AppUtil.ValidatePassword(oldPassword), AppUtil.ValidatePlaintext(plaintext), AppUtil.ValidateRest(rest)]
  }

  /** The description `crypto.encrypt(password, plaintext)` writes. */
  function Sealed(c: Suite, password: string, plaintext: Js.Value, salt: Bytes, nonce: Bytes): string
    requires |salt| == 16 && |nonce| == 16
  {
    AppCrypto.Encrypt(c, password, Payload(plaintext), salt, nonce).value
  }

  /** `exports.create(params)`: the four checks, 'File already exists' when
      the name is taken, else the sealed plaintext written under the name. */
  function CreateStep(c: Suite, fs: Files, filename: Js.Value, password: Js.Value, plaintext: Js.Value,
                      rest: set<string>, salt: Bytes, nonce: Bytes): (r: (Result<string>, Files))
    requires |salt| == 16 && |nonce| == 16
    ensures r.0.Err? ==> r.1 == fs
    ensures FirstError(CreateChecks(filename, password, plaintext, rest)).Some? ==>
      r.0 == Err(FirstError(CreateChecks(filename, password, plaintext, rest)).value)
    ensures FirstError(CreateChecks(filename, password, plaintext, rest)).None? && Name(filename) in fs ==>
      r.0 == Err(FileExists)
    ensures r.0.Ok? <==> FirstError(CreateChecks(filename, password, plaintext, rest)).None? && Name(filename) !in fs
    ensures r.0.Ok? ==> (r.0.value == Created && r.1 == fs[Name(filename) := Sealed(c, Name(password), plaintext, salt, nonce)])
  {
    match FirstError(CreateChecks(filename, password, plaintext, rest))
    case Some(m) => (Err(m), fs)
    case None =>
      if Name(filename) in fs then (Err(FileExists), fs)
      else (Ok(Created), fs[Name(filename) := Sealed(c, Name(password), plaintext, salt, nonce)])
  }

  /** `exports.read(params)`: the three checks, 'File not found', then the
      decrypted bytes as UTF-8 text; any failure to decrypt is 'Cannot read
      file: invalid password'. */
  function Read(c: Suite, fs: Files, filename: Js.Value, password: Js.Value, rest: set<string>): (r: Result<string>)
    ensures FirstError(ReadChecks(filename, password, rest)).Some? ==>
      r == Err(FirstError(ReadChecks(filename, password, rest)).value)
    ensures FirstError(ReadChecks(filename, password, rest)).None? && Name(filename) !in fs ==> r == Err(FileNotFound)
    ensures (FirstError(ReadChecks(filename, password, rest)).None? && Name(filename) in fs &&
      AppCrypto.Decrypt(c, Name(password), fs[Name(filename)]).Err?) ==> r == Err(ReadDenied)
    ensures r.Ok? <==> (FirstError(ReadChecks(filename, password, rest)).None? && Name(filename) in fs &&
      AppCrypto.Decrypt(c, Name(password), fs[Name(filename)]).Ok?)
    ensures r.Ok? ==> r.value == Utf8.ToString(AppCrypto.Decrypt(c, Name(password), fs[Name(filename)]).value)
  {
    match FirstError(ReadChecks(filename, password, rest))
    case Some(m) => Err(m)
    case None =>
      if Name(filename) !in fs then Err(FileNotFound)
      else
        match AppCrypto.Decrypt(c, Name(password), fs[Name(filename)])
        case Err(_) => Err(ReadDenied)
        case Ok(p) => Ok(Utf8.ToString(p))
  }

  /** `exports.update(params)`: the five checks, 'File not found', the old
      password gate, then the new plaintext sealed under the new password and
      written over the file. */
  function UpdateStep(c: Suite, fs: Files, filename: Js.Value, newPassword: Js.Value, oldPassword: Js.Value,
                      plaintext: Js.Value, rest: set<string>, salt: Bytes, nonce: Bytes): (r: (Result<string>, Files))
    requires |salt| == 16 && |nonce| == 16
    ensures r.0.Err? ==> r.1 == fs
    ensures FirstError(UpdateChecks(filename, newPassword, oldPassword, plaintext, rest)).Some? ==>
      r.0 == Err(FirstError(UpdateChecks(filename, newPassword, oldPassword, plaintext, rest)).value)
    ensures (FirstError(UpdateChecks(filename, newPassword, oldPassword, plaintext, rest)).None? &&
      Name(filename) !in fs) ==> r.0 == Err(FileNotFound)
    ensures (FirstError(UpdateChecks(filename, newPassword, oldPassword, plaintext, rest)).None? &&
      Name(filename) in fs && AppCrypto.Decrypt(c, Name(oldPassword), fs[Name(filename)]).Err?) ==>
      r.0 == Err(UpdateDenied)
    ensures r.0.Ok? <==> (FirstError(UpdateChecks(filename, newPassword, oldPassword, plaintext, rest)).None? &&
      Name(filename) in fs && AppCrypto.Decrypt(c, Name(oldPassword), fs[Name(filename)]).Ok?)
    ensures r.0.Ok? ==>
      (r.0.value == Updated && r.1 == fs[Name(filename) := Sealed(c, Name(newPassword), plaintext, salt, nonce)])
  {
    match FirstError(UpdateChecks(filename, newPassword, oldPassword, plaintext, rest))
    case Some(m) => (Err(m), fs)
    case None =>
      if Name(filename) !in fs then (Err(FileNotFound), fs)
      else if AppCrypto.Decrypt(c, Name(oldPassword), fs[Name(filename)]).Err? then (Err(UpdateDenied), fs)
      else (Ok(Updated), fs[Name(filename) := Sealed(c, Name(newPassword), plaintext, salt, nonce)])
  }

  /** `exports.delete(params)`: the three checks, 'File not found', the
      password gate, then that one file removed. */
  function DeleteStep(c: Suite, fs: Files, filename: Js.Value, password: Js.Value, rest: set<string>)
    : (r: (Result<string>, Files))
    ensures r.0.Err? ==> r.1 == fs
    ensures FirstError(ReadChecks(filename, password, rest)).Some? ==>
      r.0 == Err(FirstError(ReadChecks(filename, password, rest)).value)
    ensures FirstError(ReadChecks(filename, password, rest)).None? && Name(filename) !in fs ==>
      r.0 == Err(FileNotFound)
    ensures (FirstError(ReadChecks(filename, password, rest)).None? && Name(filename) in fs &&
      AppCrypto.Decrypt(c, Name(password), fs[Name(filename)]).Err?) ==> r.0 == Err(DeleteDenied)
    ensures r.0.Ok? <==> (FirstError(ReadChecks(filename, password, rest)).None? && Name(filename) in fs &&
      AppCrypto.Decrypt(c, Name(password), fs[Name(filename)]).Ok?)
    ensures r.0.Ok? ==> r.0.value == Deleted && r.1.Keys == fs.Keys - {Name(filename)}
    ensures forall k :: k in fs && k != Name(filename) ==> k in r.1 && r.1[k] == fs[k]
  {
    match FirstError(ReadChecks(filename, password, rest))
    case Some(m) => (Err(m), fs)
    case None =>
      if Name(filename) !in fs then (Err(FileNotFound), fs)
      else if AppCrypto.Decrypt(c, Name(password), fs[Name(filename)]).Err? then (Err(DeleteDenied), fs)
      else (Ok(Deleted), fs - {Name(filename)})
  }

  // ---- properties relating the operations ----

  /** A file sealed under `password` reads back as the text of its plaintext. */
  lemma ReadSealed(c: Suite, fs: Files, filename: string, password: string, plaintext: Js.Value,
                   salt: Bytes, nonce: Bytes)
    requires Sound(c) && |salt| == 16 && |nonce| == 16
    requires filename != "" && password != "" && (plaintext.Str? || plaintext.Buffer?)
    ensures Read(c, fs[filename := Sealed(c, password, plaintext, salt, nonce)], Js.Str(filename), Js.Str(password), {})
      == Ok(Text(plaintext))
  {
    var checks := ReadChecks(Js.Str(filename), Js.Str(password), {});
    assert checks[0].Ok? && checks[1].Ok? && checks[2].Ok?;
    var fs' := fs[filename := Sealed(c, password, plaintext, salt, nonce)];
    AppCrypto.DecryptEncrypt(c, password, Payload(plaintext), salt, nonce);
    assert AppCrypto.Decrypt(c, password, fs'[filename]) == Ok(Payload(plaintext));
    assert FirstError(checks).None?;
    var r := Read(c, fs', Js.Str(filename), Js.Str(password), {});
    assert r.Ok? && r.value == Utf8.ToString(Payload(plaintext));
    TextOfPayload(plaintext);
  }

  /** `read` after `create` with the same file name and password returns the
      plaintext as a string. */
  lemma ReadAfterCreate(c: Suite, fs: Files, filename: Js.Value, password: Js.Value, plaintext: Js.Value,
                        rest: set<string>, salt: Bytes, nonce: Bytes)
    requires Sound(c) && |salt| == 16 && |nonce| == 16
    requires CreateStep(c, fs, filename, password, plaintext, rest, salt, nonce).0.Ok?
    ensures Read(c, CreateStep(c, fs, filename, password, plaintext, rest, salt, nonce).1, filename, password, {})
      == Ok(Text(plaintext))
  {
    var checks := CreateChecks(filename, password, plaintext, rest);
    assert checks[0].Ok? && checks[1].Ok? && checks[2].Ok?;
    ReadSealed(c, fs, Name(filename), Name(password), plaintext, salt, nonce);
  }

  /** After a successful `update`, `read` with the new password returns the
      new plaintext. */
  lemma ReadAfterUpdate(c: Suite, fs: Files, filename: Js.Value, newPassword: Js.Value, oldPassword: Js.Value,
                        plaintext: Js.Value, rest: set<string>, salt: Bytes, nonce: Bytes)
    requires Sound(c) && |salt| == 16 && |nonce| == 16
    requires UpdateStep(c, fs, filename, newPassword, oldPassword, plaintext, rest, salt, nonce).0.Ok?
    ensures Read(c, UpdateStep(c, fs, filename, newPassword, oldPassword, plaintext, rest, salt, nonce).1,
                 filename, newPassword, {}) == Ok(Text(plaintext))
  {
    var checks := UpdateChecks(filename, newPassword, oldPassword, plaintext, rest);
    assert checks[0].Ok? && checks[1].Ok? && checks[3].Ok?;
    ReadSealed(c, fs, Name(filename), Name(newPassword), plaintext, salt, nonce);
  }

  /** After a successful `delete`, reading that file finds nothing. */
  lemma ReadAfterDelete(c: Suite, fs: Files, filename: Js.Value, password: Js.Value, rest: set<string>,
                        other: string)
    requires DeleteStep(c, fs, filename, password, rest).0.Ok? && other != ""
    ensures Read(c, DeleteStep(c, fs, filename, password, rest).1, filename, Js.Str(other), {}) == Err(FileNotFound)
  {
    var r := DeleteStep(c, fs, filename, password, rest);
    var checks := ReadChecks(filename, password, rest);
    assert FirstError(checks).None?;
    assert checks[0].Ok?;
    assert Name(filename) !in r.1 by {
      assert r.1.Keys == fs.Keys - {Name(filename)};
    }
    var again := ReadChecks(filename, Js.Str(other), {});
    assert again[0].Ok? && again[1].Ok? && again[2].Ok?;
    assert FirstError(again).None?;
  }

  /** A parameter beyond the expected ones makes `create` fail before the
      directory is consulted, whatever it holds. */
  lemma CreateRejectsExtra(c: Suite, fs: Files, filename: Js.Value, password: Js.Value, plaintext: Js.Value,
                           rest: set<string>, salt: Bytes, nonce: Bytes)
    requires |salt| == 16 && |nonce| == 16 && rest != {}
    ensures FirstError(CreateChecks(filename, password, plaintext, rest)).Some?
    ensures CreateStep(c, fs, filename, password, plaintext, rest, salt, nonce) ==
      (Err(FirstError(CreateChecks(filename, password, plaintext, rest)).value), fs)
  {
    assert CreateChecks(filename, password, plaintext, rest)[3].Err?;
  }

  /** The same holds for `read`, `update` and `delete`. */
  lemma OthersRejectExtra(c: Suite, fs: Files, filename: Js.Value, password: Js.Value, newPassword: Js.Value,
                          plaintext: Js.Value, rest: set<string>, salt: Bytes, nonce: Bytes)
    requires |salt| == 16 && |nonce| == 16 && rest != {}
    ensures FirstError(ReadChecks(filename, password, rest)).Some?
    ensures Read(c, fs, filename, password, rest) == Err(FirstError(ReadChecks(filename, password, rest)).value)
    ensures DeleteStep(c, fs, filename, password, rest) ==
      (Err(FirstError(ReadChecks(filename, password, rest)).value), fs)
    ensures FirstError(UpdateChecks(filename, newPassword, password, plaintext, rest)).Some?
    ensures UpdateStep(c, fs, filename, newPassword, password, plaintext, rest, salt, nonce) ==
      (Err(FirstError(UpdateChecks(filename, newPassword, password, plaintext, rest)).value), fs)
  {
    assert ReadChecks(filename, password, rest)[2].Err?;
    assert UpdateChecks(filename, newPassword, password, plaintext, rest)[4].Err?;
  }

  // ---- the directory ----

  class Store {
    /** The files on disk, by name. */
    var files: Files
    const c: Suite

    constructor(c: Suite, files: Files)
      ensures this.files == files && this.c == c
    {
      this.files := files;
      this.c := c;
    }

    method Create(filename: Js.Value, password: Js.Value, plaintext: Js.Value, rest: set<string>,
                  salt: Bytes, nonce: Bytes) returns (r: Result<string>)
      requires |salt| == 16 && |nonce| == 16
      modifies this
      ensures (r, files) == CreateStep(c, old(files), filename, password, plaintext, rest, salt, nonce)
    {
      var failure := FirstError(CreateChecks(filename, password, plaintext, rest));
      if failure.Some? {
        return Err(failure.value);
      }
      assert CreateChecks(filename, password, plaintext, rest)[0].Ok?;
      assert CreateChecks(filename, password, plaintext, rest)[1].Ok?;
      if filename.s in files {
        return Err(FileExists);
      }
      var description := AppCrypto.Encrypt(c, password.s, Payload(plaintext), salt, nonce);
      files := files[filename.s := description.value];
      r := Ok(Created);
    }

    method ReadFile(filename: Js.Value, password: Js.Value, rest: set<string>) returns (r: Result<string>)
      ensures r == Read(c, files, filename, password, rest)
    {
      var failure := FirstError(ReadChecks(filename, password, rest));
      if failure.Some? {
        return Err(failure.value);
      }
      assert ReadChecks(filename, password, rest)[0].Ok? && ReadChecks(filename, password, rest)[1].Ok?;
      if filename.s !in files {
        return Err(FileNotFound);
      }
      var plain := AppCrypto.Decrypt(c, password.s, files[filename.s]);
      if plain.Err? {
        return Err(ReadDenied);
      }
      r := Ok(Utf8.ToString(plain.value));
    }

    method Update(filename: Js.Value, newPassword: Js.Value, oldPassword: Js.Value, plaintext: Js.Value,
                  rest: set<string>, salt: Bytes, nonce: Bytes) returns (r: Result<string>)
      requires |salt| == 16 && |nonce| == 16
      modifies this
      ensures (r, files) == UpdateStep(c, old(files), filename, newPassword, oldPassword, plaintext, rest, salt, nonce)
    {
      var failure := FirstError(UpdateChecks(filename, newPassword, oldPassword, plaintext, rest));
      if failure.Some? {
        return Err(failure.value);
      }
      var checks := UpdateChecks(filename, newPassword, oldPassword, plaintext, rest);
      assert checks[0].Ok? && checks[1].Ok? && checks[2].Ok?;
      if filename.s !in files {
        return Err(FileNotFound);
      }
      var previous := AppCrypto.Decrypt(c, oldPassword.s, files[filename.s]);
      if previous.Err? {
        return Err(UpdateDenied);
      }
      var description := AppCrypto.Encrypt(c, newPassword.s, Payload(plaintext), salt, nonce);
      files := files[filename.s := description.value];
      r := Ok(Updated);
    }

    method Delete(filename: Js.Value, password: Js.Value, rest: set<string>) returns (r: Result<string>)
      modifies this
      ensures (r, files) == DeleteStep(c, old(files), filename, password, rest)
    {
      var failure := FirstError(ReadChecks(filename, password, rest));
      if failure.Some? {
        return Err(failure.value);
      }
      assert ReadChecks(filename, password, rest)[0].Ok? && ReadChecks(filename, password, rest)[1].Ok?;
      if filename.s !in files {
        return Err(FileNotFound);
      }
      var plain := AppCrypto.Decrypt(c, password.s, files[filename.s]);
      if plain.Err? {
        return Err(DeleteDenied);
      }
      files := files - {filename.s};
      r := Ok(Deleted);
    }
  }
}
