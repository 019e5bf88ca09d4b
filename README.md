# passworld, modelled in Dafny

passworld keeps secrets sealed under a passphrase. This project models the logic between a passphrase and the sealed text, and around that text:

- **Key derivation.** HKDF over HMAC-SHA256 (`lib/crypto.js`).
- **Bundles.** Each binary field is base64, the fields sit in a JSON object, and the whole text is base64 again (`lib/util.js`, `app/lib/util.js`).
- **Passphrase encryption.** Two pipelines:
  - `lib/recrypt.js`: slow hash, then HKDF, then AES-256-GCM;
  - `app/lib/crypto.js`: scrypt, then AES-256-GCM.
- **The two vaults.**
  - `lib/passworld.js`: the in-memory table `descriptions`, from a service name to a bundle.
  - `app/lib/passworld.js`: one sealed file per name.
- **Network framing.** The length-prefixed framing of the desktop app's socket, with its 4096-byte receive buffer.
- **Command line.** The value printer (`bin/util/stringify.js`) and the argument validators (`bin/validate.js`, `bin/util/validator.js`).
- **Encrypted paths.** The file-name substitution `lib/path.js` uses (`/` to `-`).

**Primitives.** HMAC-SHA256, scrypt, the slow hash and AES-256-GCM are foreign. They are the function-valued fields of `Primitives.Suite`. The predicate `Primitives.Sound` states what the model relies on:

- digests are 32 bytes;
- scrypt gives the length asked for;
- under a 32-byte key, GCM keeps the plaintext length, gives a 16-byte tag, and opens what it sealed.

`Primitives.SoundIsSatisfiable` shows that these assumptions are consistent.

**Randomness.** Random bytes (salts, nonces, the random secret) are parameters.

**Errors.** Every thrown `Error` is `Err(message)`, with the source's own message text. Node's own range errors are the exception: they are abbreviated (see "## Left out").

**Node built-ins.** The Node built-ins the codecs rest on are defined here:

- canonical base64 (section 4 of RFC 4648) as a real encoder and decoder (`Base64`);
- UTF-8 (`Utf8`);
- the flat JSON object of string members the bundles use, with `JSON.stringify` and a `JSON.parse` that skips whitespace (`Json`).

**State.** The code that changes state in place is imperative Dafny:

- the framing decoder is a class over a 4096-byte `array`;
- the HKDF expand loop and `flatten` are methods with loops;
- the two vaults are classes whose `map` field the methods reassign.

Each such method is specified by a function of the old state. The properties are lemmas about those functions.

The modules follow the source files:

| Module | Models |
|---|---|
| `LibCrypto` | `lib/crypto.js` |
| `LibUtil` | `lib/util.js` |
| `Recrypt` | `lib/recrypt.js` |
| `LibPassworld` | `lib/passworld.js` |
| `AppUtil` | `app/lib/util.js` |
| `AppCrypto` | `app/lib/crypto.js` |
| `AppPassworld` | `app/lib/passworld.js` |
| `LibPath` | `lib/path.js` |
| `Stringify` | `bin/util/stringify.js` |
| `CliValidate` | `bin/validate.js` |
| `CliValidator` | `bin/util/validator.js` |

The shared modules are:

- `Common`
- `Js`
- `Primitives`
- `Base64`
- `Utf8`
- `Json`
- `Codec`: the steps the two bundle codecs share.

## Model

| member | source | states |
|---|---|---|
| Primitives.SoundIsSatisfiable | lib/crypto.js:14-64 | the assumptions made of HMAC, scrypt and AES-256-GCM are met by some suite, so they are not contradictory |
| LibCrypto.Blocks | lib/crypto.js:22-28 | after n iterations `okm` holds exactly n blocks, the i-th being `T(i+1) = HMAC(PRK, T(i) ‖ info ‖ i+1)` with `T(0)` empty |
| LibCrypto.Hkdf | lib/crypto.js:20-31 | the loop (extract, `ceil(L/32)` iterations pushing one HMAC block each, concat, slice) returns exactly the HKDF output of the specification function |
| LibCrypto.HkdfLength | lib/crypto.js:30 | with 32-byte HMAC digests the output has exactly `length` bytes, for every length |
| LibCrypto.HkdfBlockCountMinimal | lib/crypto.js:25 | `ceil(L/32)` blocks cover L bytes, and one block fewer does not |
| LibCrypto.HkdfPrefix | lib/crypto.js:25-30 | for the same ikm, salt and info, the output for L1 is a prefix of the output for L2 whenever L1 <= L2 |
| LibCrypto.BlockIsRfcBlock | lib/crypto.js:26 | up to block 255 the loop's block equals `T(i)` of section 2.3 of RFC 5869, whose counter is the single octet i |
| LibCrypto.HkdfIsRfc5869 | lib/crypto.js:20-31 | for `L <= 255*32` at most 255 blocks are computed, and each is the RFC 5869 block with PRK = HMAC(salt, IKM) |
| LibCrypto.Scrypt | lib/crypto.js:33-40 | the key material is 64 bytes |
| LibCrypto.Encrypt | lib/crypto.js:42-53 | under a 32-byte key the ciphertext is as long as the plaintext and the tag is 16 bytes |
| LibCrypto.Decrypt | lib/crypto.js:55-64 | under a 32-byte key, a ciphertext and tag that `encrypt` produced with this key and nonce open to the plaintext that was sealed |
| LibCrypto.DecryptEncrypt | lib/crypto.js:42-64 | `decrypt` of what `encrypt` produced under the same key and nonce gives back the plaintext |
| Common.FirstError | lib/passworld.js:61-63 | validators run in order: no error iff every check passes, and otherwise the error is the first failing check's |
| Common.CeilDiv | lib/crypto.js:25 | `Math.ceil(n/d)`: the least q with `q*d >= n` |
| Common.Take | lib/crypto.js:30 | `slice(0, n)` keeps the first n elements, or all when there are fewer |
| Common.ConcatPrefix | lib/crypto.js:30 | concatenating a prefix of the blocks gives a prefix of the concatenation |
| Common.ConcatUniformLength | lib/crypto.js:30 | blocks of width w concatenate to `w * count` bytes |
| Base64.Value | lib/util.js:3 | a character's 6-bit value is -1 or a value whose character is that character |
| Base64.ValueChar | lib/util.js:3-4 | the value of the character for v is v |
| Base64.EncodeGroup | lib/util.js:4 | one to three bytes become four characters |
| Base64.DecodeGroup | lib/util.js:3 | a decoded group has 1 to 3 bytes, and fewer than 3 only in the last group |
| Base64.DecodeEncodeGroup | lib/util.js:3-4 | every group of one to three bytes decodes back from its four characters |
| Base64.EncodeDecodeGroup | lib/util.js:3-4 | every group that decodes is the encoding of what it decodes to |
| Base64.Encode | lib/util.js:4 | the encoding of n bytes has `4*ceil(n/3)` characters |
| Base64.DecodeEncode | lib/util.js:3-4 | `fromBase64(toBase64(b)) == b` for every byte string |
| Base64.Decode | lib/util.js:3 | `Buffer.from(s, 'base64')` on canonical text: every text that decodes is the canonical encoding of what it decodes to (Base64.DecodeEncode gives the other direction) |
| Base64.EncodeAlphabet | lib/util.js:4 | an encoding uses only the 64 alphabet characters and `=` |
| Base64.EncodeStart | lib/util.js:4 | the encoding of three or more bytes begins with the group of the first three |
| Base64.BeforeFirstPad | lib/passworld.js:21-23 | `split('=').shift()` is the longest prefix without `=` |
| Base64.UnpaddedLength | lib/passworld.js:20-23 | an encoding of n bytes without its padding is `ceil(4n/3)` characters long |
| Base64.SkipNoPad | lib/passworld.js:22-23 | a prefix without `=` passes through `split('=').shift()` unchanged |
| Base64.NoPadPrefix | lib/passworld.js:22-23 | the text before the first `=` at position k has k characters |
| Utf8.EncodeChar | lib/util.js:4 | a character becomes one to four bytes, all after the first being continuation bytes |
| Utf8.Encode | app/lib/util.js:12 | `Buffer.from(s)` has at least as many bytes as s has characters |
| Utf8.DecodeFirst | lib/util.js:17 | a well-formed sequence at the front of a buffer occupies 1 to 4 bytes |
| Utf8.ToString | lib/util.js:17 | `toString()` never yields more characters than there are bytes |
| Utf8.DecodeEncodeChar | lib/util.js:17 | the bytes of one character decode back to that character, whatever follows them |
| Utf8.ToStringEncode | app/lib/passworld.js:68-70 | `Buffer.from(s).toString() === s` for every string of Unicode scalar values (no unpaired surrogates; see "## Left out") |
| Utf8.EncodeAppend | app/lib/util.js:12 | the encoding of a concatenation is the concatenation of the encodings |
| Utf8.EncodeAscii | app/lib/util.js:12 | ASCII text encodes to its character codes, one byte each |
| Json.Stringify | lib/util.js:38 | `JSON.stringify` of an object begins with `{` |
| Json.SkipWs | lib/util.js:18 | skipping whitespace leaves a suffix that does not start with whitespace |
| Json.ParseMembers | lib/util.js:18 | each parsing step consumes input |
| Json.Parse | lib/util.js:17-18 | `JSON.parse` of a flat object: every member it returns is a string key and string value that need no escape (Json.ParseStringify gives back every such object) |
| Json.Get | lib/util.js:18 | a property lookup finds nothing iff no member has the key; otherwise it finds the LAST member with that key, as `JSON.parse` keeps the last of duplicate keys |
| Json.KeysGet | app/lib/util.js:57 | `Object.keys` of the parsed object holds exactly the keys the lookup finds |
| Json.ScanPlain | lib/util.js:18 | a string without escapes scans up to its closing quote |
| Json.ParseQuote | lib/util.js:18 | a quoted plain string parses back to itself |
| Json.ParsePair | lib/util.js:18 | one `"key":"value"` member parses back to itself |
| Json.ParseBody | lib/util.js:18 | the members of a non-empty object parse back in order |
| Json.ParseStringify | lib/util.js:18-38 | `JSON.parse(JSON.stringify(o))` gives back the members of o |
| Codec.FieldValues | lib/util.js:25 | a description has the four fields ciphertext, salt, nonce and tag |
| Codec.FromValues | lib/util.js:25 | the description built from four values holds them in field order |
| Codec.FromObject | lib/util.js:31 | reading the four properties loses nothing exactly when the object has no other property |
| Codec.ToObject | lib/util.js:31 | the object passed to `serialize` has exactly the four keys |
| Codec.EncodeFields | lib/util.js:33-38 | encoding succeeds iff every named property is present, and then gives one base64 member per name in order |
| Codec.DecodeFields | lib/util.js:18-23 | decoding succeeds only with a canonical base64 member for every name, and otherwise names a missing or malformed one |
| Codec.UnwrapWrap | lib/util.js:17-18 | the outer base64 and the JSON layer undo each other |
| Codec.DecodeEncodeFields | lib/util.js:15-44 | decoding the members written for distinct names gives back every field |
| Codec.GetAppend | lib/util.js:18 | members appended under other keys do not change a lookup |
| Codec.GetPrepend | lib/util.js:18 | members placed before the others under other keys do not change a lookup |
| Codec.DecodeFieldsAround | lib/util.js:18-23 | members under other keys, before or after the others, do not change the decoded fields |
| Codec.DecodeAll | lib/util.js:15-44 | the decoded values are exactly the object's values at the names, in order |
| Codec.WrapStartsWithEy | lib/util.js:38-40 | a wrapped object whose first key is `ciphertext` begins with "ey" |
| Codec.DecodeObject | lib/util.js:15-44 | for an object with the four fields, decoding what was encoded gives the four values in order |
| LibUtil.Serialize | lib/util.js:31-44 | `Err('Invalid description')` iff one of the four fields is missing; other properties are ignored |
| LibUtil.Deserialize | lib/util.js:15-29 | `Ok` iff the text unwraps to an object with all four fields in canonical base64, and then those fields; every failure is `'Invalid description'` |
| LibUtil.DeserializeSerialize | lib/util.js:15-44 | `deserialize(serialize(o))` gives the four fields of o |
| LibUtil.DeserializeSerializeDescription | lib/util.js:15-44 | the round trip gives back every description unchanged |
| LibUtil.DeserializeOk | lib/util.js:17-25 | a text that unwraps and decodes deserializes to the decoded values |
| LibUtil.SerializeStartsWithEy | lib/util.js:38-40 | the output starts with "ey" |
| LibUtil.SerializeAlphabet | lib/util.js:40 | the output uses only the base64 alphabet and `=` |
| LibUtil.DeserializeIgnoresExtra | lib/util.js:15-29 | members other than the four, wherever they sit in the object, do not change the result |
| LibUtil.DeserializeMissingField | lib/util.js:18-28 | an object lacking one of the four fields gives `'Invalid description'` |
| LibUtil.DeserializeFooBar | lib/util.js:18-28 | base64 of `{"foo":"bar"}` gives `'Invalid description'` |
| Recrypt.Render | lib/recrypt.js:58 | without an encoding the plaintext bytes themselves are returned; with `'base64'` their base64 text, with `'utf8'` their UTF-8 text |
| Recrypt.FromValues | lib/recrypt.js:31-37 | the bundle built from five values holds them in field order |
| Recrypt.Key | lib/recrypt.js:27-28 | the key that `encrypt` derives, and `decrypt` derives again at lines 52-53, is 32 bytes, as AES-256-GCM needs |
| Recrypt.ObjectHasNames | lib/recrypt.js:31-37 | the serialized object has each of the five names with its field |
| Recrypt.Deserialize | lib/recrypt.js:50 | `Ok` iff the text unwraps to an object with all five fields in canonical base64, and then those fields; every failure is `'Invalid description'` |
| Recrypt.DeserializeSerialize | lib/recrypt.js:31-50 | the five-field codec round-trips every bundle |
| Recrypt.UnwrapSerialized | lib/recrypt.js:31-37 | the bundle text unwraps to exactly the encoded members |
| Recrypt.DecodeBundle | lib/recrypt.js:31-50 | decoding the encoded members gives the five fields in order |
| Recrypt.DeserializeOk | lib/recrypt.js:50 | a text that unwraps and decodes deserializes to the decoded values |
| Recrypt.Serialize | lib/recrypt.js:31-37 | the bundle text is base64 of a JSON object that begins `{"ciphertext"`, so it starts with "ey" (Recrypt.DeserializeSerialize proves it decodes back to the bundle) |
| Recrypt.Encrypt | lib/recrypt.js:18-38 | the output is a bundle text starting with "ey" |
| Recrypt.DeserializeEncrypt | lib/recrypt.js:18-38 | the bundle decodes to the sealed fields: salt1 of 16 bytes, salt2 of 32, a 16-byte nonce, and the ciphertext and tag from the key `hkdf(32, slowHash(passphrase, salt1), salt2)` |
| Recrypt.Decrypt | lib/recrypt.js:49-62 | a malformed bundle gives `'Invalid description'` before any key derivation; otherwise the key is derived from the stored salts and every failure to open is `'Decryption failed'`; no other error exists |
| Recrypt.DecryptEncrypt | lib/recrypt.js:18-62 | `decrypt(encrypt(p, w), w)` gives back p (a string as its UTF-8 bytes), as raw bytes or as text in the requested encoding |
| Recrypt.DecryptUtf8 | lib/recrypt.js:18-62 | `decrypt(encrypt(s, w), w, 'utf8')` is the string s itself |
| Recrypt.DecryptBase64 | lib/recrypt.js:58 | with the `'base64'` encoding the result is the base64 text of the plaintext bytes |
| Recrypt.EncryptAsWrittenFails | lib/recrypt.js:31-37 | as written, `encrypt` hands salt1 and salt2 to the four-field `serialize`, which finds no `salt`: every call fails with `'Invalid description'` |
| LibPassworld.Secret | lib/passworld.js:20-23 | the secret is `ceil(4n/3)` base64 characters for n random bytes, with no `=` |
| LibPassworld.SecretLength | lib/passworld.js:16-24 | the secret for `length` has exactly `length` characters, or `length-1` when `length mod 4 == 1` |
| LibPassworld.Bundle | lib/passworld.js:18 | the stored bundle is never empty, so a stored entry is always truthy |
| LibPassworld.Unsealed | lib/passworld.js:92 | what `recrypt.decrypt(description, passphrase, 'base64')` yields on success is text |
| LibPassworld.Opened | lib/passworld.js:92-96 | for a stored bundle `read` gives its base64 text cut before its first `=`, or the decrypt error unchanged |
| LibPassworld.NewPassphrase | lib/passworld.js:109 | `newPassphrase` defaults to `passphrase`: absent, the old passphrase seals the new secret; given, it does |
| LibPassworld.WriteStep | lib/passworld.js:16-24 | a negative size throws; otherwise the secret is returned, only the service's entry changes, and it holds the bundle of the random bytes |
| LibPassworld.CreateStep | lib/passworld.js:60-72 | the checks run first; an existing service gives `Password already exists …` with the table unchanged; otherwise `write` with `floor(3*length/4)` bytes |
| LibPassworld.Read | lib/passworld.js:82-97 | the checks run first; an absent service gives `No password …`; when `recrypt.decrypt` fails its error passes through unchanged; success iff the checks pass, the service is stored and decryption succeeds, and then the result is exactly the decrypted base64 text cut before its first `=` |
| LibPassworld.UpdateStep | lib/passworld.js:109-132 | the four checks run first; an absent service gives `No password …`; a failing decrypt gives `'Invalid passphrase: cannot update password'` with the table unchanged; a negative `floor(3*length/4)` gives the `randomBytes` range error; success iff the checks pass, the service is stored, the old passphrase decrypts it and the size is not negative, and then a new secret sealed under `newPassphrase`, defaulting to `passphrase`, replaces only that entry |
| LibPassworld.DeleteStep | lib/passworld.js:142-159 | the checks run first; an absent service or a failing decrypt leaves the table unchanged with its own error; otherwise only that service is removed |
| LibPassworld.CreateSecretLength | lib/passworld.js:60-72 | a created secret has `length` characters, or `length-1` when `length mod 4 == 1` |
| LibPassworld.UpdateSecretLength | lib/passworld.js:109-132 | the same length fact for `update` |
| LibPassworld.ReadWritten | lib/passworld.js:82-97 | reading a just-written bundle with the same passphrase gives back the secret `write` returned |
| LibPassworld.ReadAfterCreate | lib/passworld.js:60-97 | `read(s, w)` after `create(s, w, n)` returns what `create` returned |
| LibPassworld.ReadAfterUpdate | lib/passworld.js:82-132 | after `update`, `read` with the new passphrase returns the new secret |
| LibPassworld.ReadAfterDelete | lib/passworld.js:82-159 | after `delete`, reading the service with any passphrase gives `No password …`, or that passphrase's check error when it fails its check |
| LibPassworld.ReadOther | lib/passworld.js:82-97 | reading a service is unaffected by changes to other entries |
| LibPassworld.Vault.constructor | lib/passworld.js:26 | the table starts empty |
| LibPassworld.Vault.Write | lib/passworld.js:16-24 | the table field changes as `WriteStep` says |
| LibPassworld.Vault.Create | lib/passworld.js:60-72 | the result and the new table are those of `CreateStep` |
| LibPassworld.Vault.ReadSecret | lib/passworld.js:82-97 | the result is `Read` of the current table, which is unchanged |
| LibPassworld.Vault.Update | lib/passworld.js:109-132 | the result and the new table are those of `UpdateStep` |
| LibPassworld.Vault.Delete | lib/passworld.js:142-159 | the result and the new table are those of `DeleteStep` |
| AppUtil.ValidateRest | app/lib/util.js:111-115 | passes iff rest has no key; otherwise `'Unexpected parameters'` |
| AppUtil.ValidateFilename | app/lib/util.js:89-93 | passes iff the value is a non-empty string |
| AppUtil.ValidatePassword | app/lib/util.js:95-99 | passes iff the value is a non-empty string |
| AppUtil.ValidatePlaintext | app/lib/util.js:101-109 | passes iff the value is a buffer with at least one byte or a non-empty string |
| AppUtil.Serialize | app/lib/util.js:72-87 | `Ok` iff the object has exactly the four keys; every failure is `'Invalid description'` |
| AppUtil.Deserialize | app/lib/util.js:54-70 | `Ok` iff the text unwraps to an object whose every key is one of the four and whose four fields decode, and then those fields; every failure is `'Invalid description'` |
| AppUtil.RestOfParsed | app/lib/util.js:57-59 | the `...rest` keys of a parsed object are empty exactly when all its keys are among the four |
| AppUtil.EncodedOnlyFields | app/lib/util.js:81 | the object `serialize` writes has only the four keys |
| AppUtil.UnwrapSerialized | app/lib/util.js:72-87 | the serialized text unwraps to exactly the encoded members |
| AppUtil.DeserializeOk | app/lib/util.js:54-70 | a text that unwraps to the four fields only, and decodes, deserializes to the decoded values |
| AppUtil.DeserializeSerialize | app/lib/util.js:54-87 | for an object with exactly the four fields, `deserialize(serialize(o))` gives them back |
| AppUtil.DeserializeSerializeDescription | app/lib/util.js:54-87 | the round trip gives back every description unchanged |
| AppUtil.DeserializeRejectsExtra | app/lib/util.js:57-69 | any member beyond the four gives `'Invalid description'` |
| AppUtil.UInt16BE | app/lib/util.js:14 | `writeUInt16BE` writes two bytes whose big-endian value is n |
| AppUtil.Encode | app/lib/util.js:10-17 | `Ok` iff the JSON's UTF-8 bytes fit in 16 bits, and then the 2-byte big-endian length of those bytes followed by the bytes |
| AppUtil.CopyInto | app/lib/util.js:27-44 | `copy` overwrites the positions from `at` on with the source, as far as the target reaches, and keeps the rest |
| AppUtil.FillZero | app/lib/util.js:48 | `fill(0, from)` zeroes the positions from `from` on and keeps the rest |
| AppUtil.Receive | app/lib/util.js:27-28 | receiving a chunk keeps the buffer size and `len` |
| AppUtil.Deliver | app/lib/util.js:39-50 | a complete frame (`len` set and `2 + len <= idx`) is emitted as `buf[2..2+len]`; `idx` drops by `2 + len`, `len` resets, the bytes after the frame move to the front and the buffer from the new `idx` on is zero; an incomplete frame leaves the state alone |
| AppUtil.Step | app/lib/util.js:26-51 | one `'data'` event keeps the 4096-byte buffer, emits only non-empty payloads, and destroys the connection with `'Message length exceeds buffer size'` exactly when a new header announces more than 4094 bytes |
| AppUtil.Padded | app/lib/util.js:20 | a buffer holding s at the front, padded to 4096 bytes |
| AppUtil.CopyIntoPadded | app/lib/util.js:27 | copying after the current contents appends to them |
| AppUtil.HeaderOf | app/lib/util.js:31 | `readUInt16BE` reads back the length `writeUInt16BE` wrote |
| AppUtil.DeliverFrame | app/lib/util.js:39-50 | a complete frame is emitted, the bytes after it move to the front, `idx` drops by `2+len`, the rest is zeroed and `len` resets |
| AppUtil.StepFrame | app/lib/util.js:26-51 | a frame in one chunk, possibly followed by the start of the next, is emitted and leaves the rest at the front |
| AppUtil.StepEncoded | app/lib/util.js:10-51 | what `encode` writes, delivered as one chunk to a fresh decoder, is emitted as the JSON's bytes and leaves the decoder fresh |
| AppUtil.StepSplitFrame | app/lib/util.js:26-51 | a frame split across two chunks at any point emits nothing on the first and the payload on the second |
| AppUtil.Decoder.constructor | app/lib/util.js:20-24 | a zeroed 4096-byte buffer with `idx` and `len` 0 |
| AppUtil.Decoder.OnData | app/lib/util.js:26-51 | the handler updates the buffer, `idx` and `len` in place exactly as `Step` says and reports its event |
| AppUtil.Decoder.CopyChunk | app/lib/util.js:27-28 | `chunk.copy(buf, idx)` and `idx += chunk.length` as `Receive` says |
| AppUtil.Decoder.Drain | app/lib/util.js:39-50 | draining a complete frame changes the state as `Deliver` says |
| AppUtil.Decoder.MoveToFront | app/lib/util.js:44 | `buf.slice(start, stop).copy(buf)` as `CopyInto` says |
| AppUtil.Decoder.ZeroFrom | app/lib/util.js:48 | `buf.fill(0, from)` as `FillZero` says |
| AppCrypto.GenKey | app/lib/crypto.js:9 | the key is 32 bytes of scrypt on the password's UTF-8 bytes |
| AppCrypto.Encrypt | app/lib/crypto.js:45-53 | with 16-byte salt and nonce, serializing the sealed four fields always succeeds |
| AppCrypto.DeserializeEncrypt | app/lib/crypto.js:45-53 | the output deserializes to exactly the salt, the nonce, and the ciphertext and tag under `scrypt(password, salt, 32)`, ciphertext as long as the plaintext and a 16-byte tag |
| AppCrypto.Decrypt | app/lib/crypto.js:19-35 | the only errors are `'Invalid description'` and `'Decryption failed'` |
| AppCrypto.DecryptCases | app/lib/crypto.js:19-35 | a malformed description gives `'Invalid description'` before any key derivation; otherwise the key is derived from the stored salt and a failure to open is `'Decryption failed'` |
| AppCrypto.DecryptEncrypt | app/lib/crypto.js:19-53 | `decrypt(w, encrypt(w, p))` gives back p |
| AppPassworld.Payload | app/lib/crypto.js:49 | `cipher.update(plaintext)` reads a buffer's own bytes, and a string's UTF-8 bytes, which decode back to the string |
| AppPassworld.TextOfPayload | app/lib/passworld.js:35-70 | the text of the bytes sealed for a string or buffer plaintext is what `read` returns for it |
| AppPassworld.CreateStep | app/lib/passworld.js:26-43 | the checks run first; an existing file gives `'File already exists'`; otherwise only that file is written, with the sealed plaintext; any error leaves the files unchanged |
| AppPassworld.Read | app/lib/passworld.js:54-74 | the checks run first; a missing file gives `'File not found'`; a failing decrypt gives `'Cannot read file: invalid password'`; otherwise the plaintext's text |
| AppPassworld.UpdateStep | app/lib/passworld.js:87-113 | the checks run first; a missing file gives `'File not found'`; a failing decrypt with the old password gives `'Cannot update file: invalid password'`; otherwise only that file is rewritten under the new password; any error leaves the files unchanged |
| AppPassworld.DeleteStep | app/lib/passworld.js:124-146 | the checks run first; a missing file or a failing decrypt gives its error with the files unchanged; otherwise only that file is removed |
| AppPassworld.ReadSealed | app/lib/passworld.js:35-70 | reading a file sealed under a password with that password gives back the plaintext's text |
| AppPassworld.ReadAfterCreate | app/lib/passworld.js:26-74 | `read(f, w)` after `create(f, w, p)` returns p as text |
| AppPassworld.ReadAfterUpdate | app/lib/passworld.js:54-113 | after `update`, `read` with the new password returns the new plaintext |
| AppPassworld.ReadAfterDelete | app/lib/passworld.js:54-146 | after `delete`, reading that file with any valid (non-empty) password gives `'File not found'` |
| AppPassworld.CreateRejectsExtra | app/lib/passworld.js:30 | an extra parameter fails the checks before the store is looked at |
| AppPassworld.OthersRejectExtra | app/lib/passworld.js:57-127 | the same for `read`, `update` and `delete` |
| AppPassworld.Store.constructor | app/lib/passworld.js:12-14 | the store starts with the given files |
| AppPassworld.Store.Create | app/lib/passworld.js:26-43 | the result and the new files are those of `CreateStep` |
| AppPassworld.Store.ReadFile | app/lib/passworld.js:54-74 | the result is `Read` of the current files, which are unchanged |
| AppPassworld.Store.Update | app/lib/passworld.js:87-113 | the result and the new files are those of `UpdateStep` |
| AppPassworld.Store.Delete | app/lib/passworld.js:124-146 | the result and the new files are those of `DeleteStep` |
| LibPath.IndexOf | lib/path.js:9-16 | the first occurrence of a character, or the length when there is none |
| LibPath.ReplaceFirst | lib/path.js:9-16 | a non-global regex replace changes only the first occurrence, and nothing when there is none |
| LibPath.SlashFree | lib/path.js:9 | after the replacement no `/` is left exactly when the sealed text had at most one |
| LibPath.UnswapSwap | lib/path.js:9-16 | replacing the first `-` back undoes the replacement when the sealed text has no `-` |
| LibPath.TrimEnd | lib/path.js:7 | trailing separators are dropped |
| LibPath.LastSlash | lib/path.js:7 | finds the last separator in a range, or reports that there is none |
| LibPath.ParsePath | lib/path.js:7-15 | `path.parse`'s base name never holds a separator |
| LibPath.ParseJoin | lib/path.js:7-11 | a base name without separators joined to a plain directory parses back into the two |
| LibPath.EncryptPath | lib/path.js:6-12 | `encryptPath` keeps the directory and replaces only the base name by the sealed name, whenever that name is one non-empty component |
| LibPath.DecryptPath | lib/path.js:14-20 | fails exactly when opening the base name (first `-` turned back into `/`) fails, with that error |
| LibPath.DecryptEncryptPath | lib/path.js:6-20 | with a sealed name with no `-` and at most one `/`, `decryptPath(encryptPath(p))` rebuilds p's directory and base |
| LibPath.TwoSlashesBreak | lib/path.js:9 | with two or more `/` in the sealed text, the name written still contains a `/`, so the base read back differs |
| Stringify.EntryLines | bin/util/stringify.js:4-13 | a string leaf gives exactly the line `[path + k, v]` and a buffer leaf `[path + k, v.toString()]`; booleans and numbers give none; `null`/`undefined` throw; every line's path starts with the prefix and key |
| Stringify.FlatNested | bin/util/stringify.js:13 | an object value contributes its own lines with the path `path + k + '/'`, so nested keys are joined by `/` |
| Stringify.Flat | bin/util/stringify.js:3-17 | every line of the flattened entries has a path starting with the prefix |
| Stringify.FlatAppend | bin/util/stringify.js:4 | flattening one more entry appends that entry's lines, or propagates its error |
| Stringify.FlatStrings | bin/util/stringify.js:9-11 | entries that are all strings give one line per key, in order, path `prefix + key` |
| Stringify.Flatten | bin/util/stringify.js:3-17 | the loop with its pushes onto `arr` appends exactly `Flat` of the entries, or throws its error |
| Stringify.FlatPrefixErr | bin/util/stringify.js:4 | an error among the first entries is the error of the whole |
| Stringify.LessIrreflexive | bin/util/stringify.js:25 | no key sorts before itself |
| Stringify.LessTotal | bin/util/stringify.js:25 | of two distinct keys one sorts before the other |
| Stringify.LessTransitive | bin/util/stringify.js:25 | string comparison is transitive |
| Stringify.Insert | bin/util/stringify.js:25 | inserting adds exactly one line and keeps the others |
| Stringify.InsertElements | bin/util/stringify.js:25 | the lines after insertion are the inserted line and the old ones |
| Stringify.InsertSorted | bin/util/stringify.js:25 | inserting into sorted lines keeps them sorted |
| Stringify.Sort | bin/util/stringify.js:25 | the sorted lines are ordered by path and are a permutation of the input |
| Stringify.Join | bin/util/stringify.js:26-27 | the output is empty iff there are no lines; one line is `path: value` |
| Stringify.JoinAppend | bin/util/stringify.js:26-27 | one more line adds `'\n' + path + ': ' + value` |
| Stringify.Stringify | bin/util/stringify.js:19-30 | a string passes through, a buffer becomes its text, `null`/`undefined` throw, booleans and numbers give `''`, and an object succeeds iff flattening does |
| Stringify.StringifyObject | bin/util/stringify.js:24-29 | an object prints as the formatted lines of some order that is sorted by path and is a permutation of the flattened lines |
| CliValidate.NonEmptyString | bin/validate.js:10-32 | passes iff the value is a non-empty string; otherwise `Expected <name> to be a non-empty string` |
| CliValidate.PositiveInteger | bin/validate.js:16-20 | passes iff the value is an integer > 0 |
| CliValidate.YesNo | bin/validate.js:4-26 | passes iff the value is exactly `'yes'` or `'no'` |
| CliValidate.Entry | bin/validate.js:37-45 | an unknown key throws plain `'Unrecognized key'`; a validator's failure is its message, a blank line and the usage |
| CliValidate.Validate | bin/validate.js:35-47 | passes iff every entry passes; otherwise the error is that of the first failing entry |
| CliValidate.FirstFailureWins | bin/validate.js:36-39 | a failing first entry decides the error whatever follows, and an unknown key never carries the usage |
| CliValidate.ValidatePrefix | bin/validate.js:36 | passing entries in front change nothing |
| CliValidator.Run | bin/util/validator.js:3-25 | `path` and `password` use the non-empty-string check, `length` the positive-integer check, and any other key throws a `TypeError` |
| CliValidator.Validate | bin/util/validator.js:23-29 | passes iff the validator passes; every failure is its message, a blank line and the usage |
| CliValidator.Accepts | bin/util/validator.js:4-29 | `path`/`password` pass iff non-empty strings, `length` iff an integer > 0, and every rejection ends with `'\n\n' + usage` |

## Left out

- The internals of HMAC-SHA256, scrypt and AES-256-GCM. They are foreign calls into Node's `crypto`.
  - The model relies only on the lengths and the open-after-seal fact that `Primitives.Sound` lists.
  - Wrong-password rejection and tamper detection are cryptographic properties, not facts of this code. The model shows only that every failure to open becomes the one error message.
- `crypto.slowHash`, which lib/recrypt.js:27 and 52 call, is not defined in lib/crypto.js. In the model it is the primitive `Suite.slowHash`.
- `randomBytes` is nondeterminism. Its results are parameters.
  - The model represents its `RangeError` only for a negative size, since `floor(3*length/4)` can be negative.
  - The upper bound of 2^31-1 bytes is not represented.
- Promises and `async`. Every operation is modelled as sequential.
- The file system, sockets, terminal prompts, the Electron interface, and gzip/tar:
  - lib/index.js, lib/fs.js and lib/passwerk.js;
  - `open` and `save` in lib/passworld.js;
  - the app's server and client;
  - cli.js and bin/run.js;
  - the bin handlers and password prompts.

  All of these are I/O. In app/lib/passworld.js, only the `readFile`, `writeFile` and `unlink` behaviour is modelled, as a map.
- `validateService`, `validatePassphrase` and `validateLength`, which lib/passworld.js calls, are not part of this model. They are the function-valued `LibPassworld.Checks`.
- Node's lenient base64 decoding.
  - `Base64.Decode` accepts only canonical text. Node would also skip stray characters and accept missing padding.
  - A bundle that is non-canonical but decodable is therefore rejected by the model.
- General `JSON.parse`. `Json.Parse` reads objects of string members, skipping whitespace, without escape sequences.
  - Anything else is `None` (a throw). That includes non-string members and escaped strings.
  - Where this matters:
    - a member such as `"salt": 5` makes Node's `fromBase64` throw too, so the result is still `'Invalid description'`;
    - escapes cannot occur in what the codecs write, since base64 text and the field names need none;
    - a member whose value is an array, or an array-like object such as `{"length":0}`, passes in the source, because `Buffer.from` then builds bytes from its elements and ignores `'base64'` (lib/util.js:20-23). The source therefore accepts such bundles, and the model refuses them.
- `JSON.parse` of the decoder's payload (app/lib/util.js:40), and the emitted message object. `AppUtil.Step` emits the payload bytes.
  - AppUtil.Deliver: a payload that is not JSON makes `JSON.parse` throw out of the `'data'` handler before the drain at lines 43-49. `idx` and `len` then stay set, and every later event sees the same stale frame. The model always emits and drains, so it does not capture this wedged decoder.
- Node's `ERR_OUT_OF_RANGE` messages are abbreviated to their first sentence, because the rest depends on the Node version and on the input. This covers `LibPassworld.SizeOutOfRange` for `randomBytes` with a negative size, and the error of `AppUtil.Encode` for `writeUInt16BE` above 65535. Node continues with the permitted range and the value received, e.g. `It must be >= 0 && <= 2147483647. Received -1`.
- `AppUtil.Encode`: `JSON.stringify(msg)` is its input `json`. The encoding of arbitrary messages is not modelled.
- `Utf8.ToString`: for ill-formed input it puts one U+FFFD per undecodable byte. Node's decoder replaces maximal ill-formed subsequences, so the two can differ in how many replacement characters ill-formed bytes produce. Well-formed text, which is all the properties use, is decoded exactly.
- JavaScript strings holding unpaired surrogates. A Dafny `string` is a sequence of Unicode scalar values: `char` excludes U+D800 to U+DFFF, so such a string has no counterpart in the model. For it, `Buffer.from(s)` writes EF BF BD in place of each lone surrogate, and `toString()` does not give `s` back.
- Utf8.ToStringEncode, and the round trips built on it, hold for every string of Unicode scalar values, and not for strings with unpaired surrogates. Those round trips are Recrypt.DecryptUtf8, AppPassworld.Payload, AppPassworld.TextOfPayload, AppPassworld.ReadSealed and AppPassworld.ReadAfterCreate.
- Encodings other than UTF-8 and base64 in `recrypt.decrypt`'s `encoding` argument.
- Numbers are modelled as reals, so `Number.isInteger` is exact. NaN, infinities and floating-point rounding are not modelled.
- Own properties inherited from `Object.prototype`, such as `validators['toString']` in bin/validate.js and bin/util/validator.js, and `descriptions['toString']` in lib/passworld.js:67, 86, 115 and 146. In the model such keys are unknown, and such a service counts as not stored, where the source finds an inherited function.
- `path.parse` is modelled on POSIX paths, and `path.join` on a directory and one name. Normalisation of `.`, `..` and repeated separators is not modelled.
- Stringify.Less: compares characters by code point. JavaScript compares UTF-16 code units, and the two orders differ only for characters beyond U+FFFF.
- Stringify.StringifyObject: the order of lines with equal paths is left open.
  - The source's comparator returns -1 for equal keys, so that order depends on the engine's sort.
  - The model states only that the output is sorted and is a permutation of the flattened lines.
- Stringify.Flatten: its shared accumulator `arr` is a value that the method threads through its loop and recursive calls, not an aliased array.
- `flatten` called directly on a string or buffer (it iterates characters or bytes). `Stringify.Stringify` never does this, because it returns before calling `flatten`.
- `LibCrypto.Hkdf` follows the code for every length.
  - Its counter byte wraps modulo 256 above block 255.
  - Agreement with RFC 5869 is stated for `L <= 8160`, the RFC's limit.
- `LibPath.Bundler`: the sealing and opening of a base name are parameters. lib/path.js expects a string from `crypto.encrypt`, which lib/crypto.js does not provide.
- Tests that exercise versions of the code with no source here: `'Invalid bundle'`, gzip and `randcrypt`.

## Findings

| source | as written | input that shows it | evidently intended | confidence | as-written member | corrected member |
|---|---|---|---|---|---|---|
| lib/recrypt.js:31-53 | Given a slow hash (the model's `Suite.slowHash`), `encrypt` passes `{ciphertext, salt1, salt2, nonce, tag}` to lib/util.js `serialize`, which destructures `salt`. `toBase64(undefined)` then throws, so every call fails with `'Invalid description'`. `decrypt` likewise reads `salt1`/`salt2` from a four-field `deserialize` that never yields them. With lib/crypto.js as shown, which exports no `slowHash`, both fail even earlier: line 27 (and line 52 for a well-formed bundle) throws the `TypeError` "crypto.slowHash is not a function". | any plaintext and passphrase, e.g. `encrypt('a', 'w')` | a codec for the five fields, so that `decrypt(encrypt(p, w), w)` gives back p | not executed | Recrypt.EncryptAsWrittenFails | Recrypt.DecryptEncrypt |
