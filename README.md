# Authenticator plugin: a verified model

The Authenticator plugin for the Wox / Flow launchers keeps TOTP accounts
(name, issuer, Base32 secret) in `generated/saved.json`. It shows the current
six-digit code of every account, and it adds, looks up and deletes accounts
from launcher queries. `AuthenticatorClient.py` holds the client: it turns a
secret into key bytes, derives a secret from an alias, computes the code
(RFC 6238 over the truncation of RFC 4226), parses its command-line
arguments, names and records the QR image of an account, and prompts for a
code to verify. `main.py` is the plugin. It deletes an account from the
saved list, and finds the saved account behind the context string it
attaches to a shown code.

The model is split into these modules, one file each:

- `Wrappers`: `Option` and `Result`.
- `Bytes`: bytes, big-endian readings, left padding.
- `Base32`: the codec of section 6 of RFC 4648, as Python's `b32encode` and `b32decode(casefold=True)` behave. Its round trip is proved.
- `Strings`: `str.split(' ')`, one-character `str.replace`, double quotes.
- `Secret`: `__byte_secret__` and `__creat_secret_from_alias__`.
- `Totp`: `int_to_bytestring` and `generate_otp`, with the worked example of section 5.4 of RFC 4226, and the remaining time.
- `Args`: `Args.all`, `Args.bools`, `Args.get`, and `load_args`, modelled as a loop proved against a token-by-token `Parse`.
- `Store`:
  - the saved list as a class `SavedFile` whose `records` field the methods update;
  - `get_saved`;
  - the filter of `delete_otp`;
  - the first-match lookup of `get_saved_info`;
  - the round trip from the context string back to the record.
- `Client`:
  - the QR file name and the saving half of `create_QRCode`;
  - `get_secret_from_args`;
  - `gen_code_from_args`;
  - the argument lists of `update_now`;
  - the verification prompt at the end of `run`.

The model follows the code in two places where a plainer description would differ:

- **Window index.** `int(t / 30)` truncates toward zero. Timestamps from -29 to -1 give window 0 and no error. Only a timestamp of -30 or less raises the `ValueError`.
- **Alias.** An alias of 32 or more characters leaves `secret` unbound in `__creat_secret_from_alias__`, so the call fails. It does not return None.

## Model

| member | source | states |
|---|---|---|
| Bytes.FromMinimalBigEndian | AuthenticatorClient.py:30-35 | the bytes the loop of `int_to_bytestring` collects, read big-endian, are the number again |
| Bytes.MinimalBigEndianLength | AuthenticatorClient.py:30-35 | the unpadded bytes of `i` number at most `k` exactly when `i < 256^k`, so padding to 8 gives 8 bytes exactly when `i < 2^64` |
| Bytes.MinimalBigEndianLeadingByte | AuthenticatorClient.py:30-35 | the bytes the loop collects for a positive number start with a non-zero byte |
| Bytes.ToFromBigEndian | AuthenticatorClient.py:30-35 | fixed-width big-endian bytes are determined by their value |
| Bytes.FromToBigEndian | AuthenticatorClient.py:30-35 | the fixed-width big-endian form of a number that fits reads back as that number |
| Totp.IntToBytestring | AuthenticatorClient.py:30-35 | the loop returns the big-endian bytes of `i` zero-filled on the left to `padding`; they read back as `i`; they are exactly `padding` long iff `i < 256^padding`, and then equal the fixed-width form; longer than `padding`, they start with a non-zero byte |
| Totp.CounterFacts | AuthenticatorClient.py:30-35 | the padded bytes read back as `i`, and their length is `padding` iff `i` fits |
| Totp.CounterLeadingByte | AuthenticatorClient.py:30-35 | `rjust` only adds zeros in front, so bytes longer than the padding start with a non-zero byte |
| Totp.Counter | AuthenticatorClient.py:84 | the counter of a window reads back as the window, is at least 8 bytes, and is the 8-byte big-endian form below 2^64 |
| Totp.Offset | AuthenticatorClient.py:87 | `hmac_hash[-1] & 0xf` is at most 15, so the four bytes it starts lie inside the 20-byte digest |
| Totp.Truncate | AuthenticatorClient.py:86-91 | the truncated value is below 2^31 and is the big-endian reading of the four bytes at the offset with the top bit cleared |
| Totp.TruncateValue | AuthenticatorClient.py:88-91 | the masked fields, added, equal the four-byte reading modulo 2^31 |
| Totp.FieldsAdd | AuthenticatorClient.py:88-91 | on 32-bit words, the or of the four masked, shifted bytes equals the masked first byte times 2^24 plus the others times 2^16, 2^8 and 1 |
| Totp.DecimalString | AuthenticatorClient.py:94 | `str(n)` is a non-empty digit string without a leading zero whose value is `n` |
| Totp.DecimalLength | AuthenticatorClient.py:94 | `str(n)` has at most `k` digits when `n < 10^k`, so `str(code % 10**6)` never exceeds six |
| Totp.LeadingZero | AuthenticatorClient.py:95-96 | prefixing `'0'` keeps a digit string's value |
| Totp.DecimalUnique | AuthenticatorClient.py:93-97 | two digit strings of equal length and value are equal, so the code is determined by its value |
| Totp.FormatCode | AuthenticatorClient.py:93-97 | the zero-filling loop returns six decimal digits whose value is `code % 10^6` |
| Totp.WindowIndex | AuthenticatorClient.py:81 | `int(t / 30)` is negative iff `t <= -30`, and brackets `t` between `30w` and `30w + 30` on the side of zero |
| Totp.RemainTime | AuthenticatorClient.py:214 | `30 - second % 30` lies in 1..30, is 30 iff the second is on a window boundary, and reaches the next boundary |
| Totp.Hotp | AuthenticatorClient.py:84-94 | the HOTP value of a key and window is below 10^6 |
| Totp.GenerateOtp | AuthenticatorClient.py:79-97 | ValueError iff the window is negative (checked first); else the Base32 error iff the secret does not decode; else six decimal digits whose value is the HOTP value of the key and window |
| Totp.Rfc4226Example | AuthenticatorClient.py:86-94 | whatever key and window hash to the digest of section 5.4 of RFC 4226 get the offset 10, the truncated value 0x50ef7f19 and the HOTP value 872921 |
| Base32.RoundTrip | AuthenticatorClient.py:67 | `b32decode` of `b32encode(b)` gives `b` back |
| Base32.Encode | AuthenticatorClient.py:76 | every started group of five bytes becomes eight characters |
| Base32.Decode | AuthenticatorClient.py:67 | only an ASCII string that is a whole number of 8-character quanta decodes |
| Base32.EncodePrefix | AuthenticatorClient.py:76 | the first `8m` characters of an encoding encode the first `5m` bytes, all from the alphabet |
| Base32.UnpaddedLength | AuthenticatorClient.py:64-66 | the encoding without its `=` plus the padding count is a whole number of 8-character quanta |
| Secret.PadSecret | AuthenticatorClient.py:63-66 | between 0 and 7 `=` are appended, the length becomes a multiple of 8 and the secret is a prefix |
| Secret.PadSecretAligned | AuthenticatorClient.py:64-65 | a secret whose length is a multiple of 8 is left unchanged |
| Secret.PadSecretIdempotent | AuthenticatorClient.py:63-66 | padding a padded secret changes nothing |
| Secret.EncodedSecret | AuthenticatorClient.py:62-67 | a secret stored with its padding decodes to the bytes it encodes |
| Secret.UnpaddedSecret | AuthenticatorClient.py:62-67 | a secret stored without its `=` padding also decodes to the bytes it encodes |
| Secret.ByteSecret | AuthenticatorClient.py:62-67 | a secret whose length is a multiple of 8 is decoded as it is |
| Secret.CreateSecretFromAlias | AuthenticatorClient.py:70-77 | None iff the alias is falsy; an error iff it is truthy and 32 or more characters long; otherwise exactly 32 characters of the Base32 alphabet |
| Secret.DerivedSecretDigits | AuthenticatorClient.py:75-76 | the first 32 characters of the encoding of a 64-byte digest are the padding-free encoding of its first 20 bytes |
| Secret.DerivedSecretKey | AuthenticatorClient.py:70-77 | a secret derived from a short alias decodes to the first 20 bytes of the digest of the alias |
| Args.MembersComplete | AuthenticatorClient.py:260-272 | the member list holds every member of `Args` |
| Args.Flags | AuthenticatorClient.py:278-298 | every member of `Args.all` has at least one flag, and every flag is at least two characters long and starts with `-` |
| Args.IsBool | AuthenticatorClient.py:300-312 | `Args.bools` holds exactly SaveQR, GenOnly, Now, Update and Display; every other member, `Verify` included, takes a value |
| Args.FlagsDisjoint | AuthenticatorClient.py:282-297 | no flag of `Args.all` names two members |
| Args.Find | AuthenticatorClient.py:317-320 | the member found has the key among its flags; when none is found, no member has it |
| Args.Get | AuthenticatorClient.py:315-320 | a member returned by `Args.get` has the key among its flags |
| Args.GetSpec | AuthenticatorClient.py:315-320 | `Args.get` finds a member iff some member has the key as a flag, and then it is the only such member |
| Args.GetFlag | AuthenticatorClient.py:315-320 | every flag of `Args.all` leads back to its member |
| Args.Defaults | AuthenticatorClient.py:149-151 | every member is a key, switches hold booleans and other members none; no switch is on and no value is set |
| Args.Step | AuthenticatorClient.py:154-165 | a token leaves a member waiting for its value only when it is read as a flag and names a value member; a step keeps every member a key and every switch a boolean |
| Args.Parse | AuthenticatorClient.py:149-165 | a member still waiting for its value is a value member named by the last token |
| Args.LoadArgs | AuthenticatorClient.py:148-166 | the loops of `load_args` return the dictionary of the token-by-token parse of `argv` |
| Args.ParseShaped | AuthenticatorClient.py:149-151 | every member is a key; switches hold booleans and other members None or a string; with no tokens, switches are False and the rest None |
| Args.SwitchSet | AuthenticatorClient.py:159-163 | a switch is True iff one of its flags stands where a flag is read |
| Args.SwitchStep | AuthenticatorClient.py:162-163 | one token turns a switch on iff it is one of its flags read as a flag, and leaves it alone otherwise |
| Args.ValueFlag | AuthenticatorClient.py:155-165 | a value flag takes the next token verbatim, even a flag, and overwrites an earlier value |
| Args.TrailingValueFlag | AuthenticatorClient.py:153-166 | a value flag as the last token leaves its value as it was (None if unset) |
| Args.SwitchFlag | AuthenticatorClient.py:162-163 | a switch flag read as a flag sets its member to True |
| Args.UnknownIgnored | AuthenticatorClient.py:159-161 | a token that names no member, read as a flag, can be dropped without changing the result |
| Args.ThreeValueFlags | AuthenticatorClient.py:154-165 | three value flags, each followed by its value, set their three members in turn |
| Args.NotAFlag | AuthenticatorClient.py:315-320 | a token that is empty or does not start with `-` names no member |
| Args.ParseTextFrom | AuthenticatorClient.py:154-165 | every string value in the dictionary is one of the tokens, taken verbatim |
| Args.ParseCongruent | AuthenticatorClient.py:154-165 | the parse of the tokens that follow depends only on the state reached |
| Strings.Split | main.py:75 | `split(' ')` gives at least one piece, and no piece contains a space |
| Strings.JoinSplit | main.py:75 | joining the pieces with spaces gives the query back |
| Strings.SplitJoin | main.py:75 | splitting a join of space-free pieces gives the pieces back |
| Strings.ReplaceChar | AuthenticatorClient.py:118 | `replace` of one character keeps the length |
| Strings.ReplaceCharAt | AuthenticatorClient.py:118 | each `from` becomes `to` and every other character stays in place |
| Strings.ReplaceCharRemoves | AuthenticatorClient.py:118 | no `from` is left |
| Strings.ReplaceCharAbsent | AuthenticatorClient.py:118 | a string without `from` is unchanged |
| Strings.ReplaceCharConcat | AuthenticatorClient.py:118 | replacing in a concatenation replaces in each part |
| Strings.Quote | main.py:81 | the quoted text is the text between two double quotes |
| Store.InfoOfNewRecord | AuthenticatorClient.py:174-177 | the `get_saved` row of a record `create_QRCode` wrote is its name, issuer and secret |
| Store.KeepComplete | main.py:57-67 | on records with the three keys, `delete_otp` keeps a record iff it is not the target's account |
| Store.Keep | main.py:56-67 | a record is dropped only when it and the target have the three keys and it is the target's account; complete records raise no KeyError; a KeyError names `Name`, `Issuer` or `Secret` |
| Store.DeleteFailure | main.py:56-67 | the first KeyError in the list is the KeyError of `delete_otp` |
| Store.Delete | main.py:55-67 | `delete_otp` succeeds iff no record raises a KeyError in its comparison, and then writes back no more records than were saved, each of them a saved record |
| Store.DeleteIncomplete | main.py:57-58 | a record without `Name` or `Issuer` anywhere makes `delete_otp` fail |
| Store.Kept | main.py:55-67 | the records kept are never more than the records saved |
| Store.DeleteKept | main.py:55-67 | with the three keys everywhere, `delete_otp` writes back exactly the records that are not the target, in order |
| Store.KeptMember | main.py:55-67 | a record is kept iff it was saved and is not the target |
| Store.KeptConcat | main.py:55-67 | filtering a concatenation filters each part, so order is kept and matches add up |
| Store.KeptLength | main.py:55-67 | every match is removed: the list shrinks by the number of matches |
| Store.Format | main.py:59-62 | `f'{x}'` is the string itself for a string; it is "None" for null and for the string "None", and for nothing else |
| Store.NewRecord | AuthenticatorClient.py:134-138 | the dictionary `create_QRCode` appends has exactly the keys Name, Issuer, Secret and QR, holding the name, the issuer, the secret and the file name |
| Store.InfoOf | AuthenticatorClient.py:174-177 | a record with the three keys gives its Name, Issuer and Secret; a missing key gives None |
| Store.KeptAbsent | main.py:55-67 | deleting an account that is not saved changes nothing |
| Store.KeptIdempotent | main.py:55-67 | deleting the same account twice deletes it once |
| Store.NewRecordSelf | main.py:59-65 | a record matches itself as a target iff its name and issuer are strings |
| Store.DeleteAppended | main.py:59-62 | deleting a just-appended record by itself removes it iff its name and issuer are not null, because a null prints as `None` |
| Store.FindSaved | main.py:78-87 | a record returned is a saved record the arguments match; None means that no record matches |
| Store.FindSavedFirst | main.py:78-87 | the first matching record is the one returned |
| Store.SavedMatchComplete | main.py:79-85 | a record with the three keys raises no KeyError in the comparison |
| Store.FindSavedTotal | main.py:78-87 | with the three keys in every record the lookup raises no KeyError |
| Store.FindSavedSome | main.py:78-87 | with the three keys everywhere and a matching record, a record is found |
| Store.QueryArgs | main.py:75 | the parsed query has a Name, an Issuer and a Secret |
| Store.Context | main.py:34 | the context starts with `-i "`, ends with the secret, and is the three values plus 15 characters long |
| Store.ContextTokens | main.py:34 | split on spaces, the context string gives back its six tokens when the values have no spaces |
| Store.ParseContext | AuthenticatorClient.py:154-165 | `-i`, `-n` and `-s`, each followed by a value, set the three values |
| Store.ContextState | main.py:75 | the six tokens of a context leave the defaults with the issuer, name and secret set |
| Store.ContextArgs | main.py:75 | the context of an account parses to its quoted issuer and name and its verbatim secret |
| Store.QuoteInjective | main.py:81-83 | equal quoted texts come from equal texts |
| Store.OwnContextMatches | main.py:79-87 | a record matches the quoted forms of its own name and issuer and its own secret |
| Store.MatchQuoted | main.py:81-85 | a record that matches quoted texts prints as those texts and holds the secret |
| Store.SavedMatch | main.py:79-86 | a KeyError iff `Name` or `Issuer` is missing, or the name and issuer match and `Secret` is missing; a match means the three keys, the quoted name and issuer, and the same secret |
| Store.SpacedContextMisses | main.py:75-87 | when the issuer or the name contains a space, a record printing as that issuer and name does not match the parsed context, because splitting on spaces breaks the quoted value |
| Store.SpacedContextNotFound | main.py:75-87 | in a store holding only that record, `get_saved_info` returns None for the context (built as at main.py:34) of a record whose printed issuer or name contains a space |
| Store.SpacedContextArgs | main.py:75 | the context of the issuer `a" b` (no other spaces, `b` not starting with `-`) parses to the quoted issuer `a`, the quoted name and the secret, because the token `b"` names no member and is dropped |
| Store.SpacedContextOtherAccount | main.py:75-87 | in a store holding an account with issuer `a` before one with issuer `a" b`, same name and secret, the second account's context makes `get_saved_info` return the first account |
| Store.ContextFindsRecord | main.py:73-87 | the context built from a saved record's own printed name, issuer and non-empty secret (main.py:34), none of them containing a space, leads `get_saved_info` to a saved record with the same printed name and issuer and the same secret |
| Store.SavedFile.constructor | AuthenticatorClient.py:132-133 | the file holds the list it is opened with |
| Store.SavedFile.Append | AuthenticatorClient.py:132-141 | the new account's record is added at the end and nothing else changes |
| Store.SavedFile.GetSaved | AuthenticatorClient.py:169-178 | one row per record in order, null for a missing key |
| Store.SavedFile.DeleteOtp | main.py:50-69 | on success the list becomes the filtered list; on a KeyError the error of the filter is raised and the file is left as it was |
| Store.SavedFile.GetSavedInfo | main.py:73-87 | the scan returns the first-match lookup for the Name, Issuer and Secret parsed from the query |
| Client.QrFileName | AuthenticatorClient.py:114-118 | the file name has no `:` and is as long as the unreplaced name |
| Client.QrFileNameParts | AuthenticatorClient.py:114-118 | the name is `name@issuer[Secret=secret]`, then `[Alias=alias]` exactly when the alias is truthy, then `.png`, with the colons of each given part replaced |
| Client.AliasPartEscape | AuthenticatorClient.py:115-116 | the alias part is present exactly when the alias is truthy |
| Client.QrFileNamePlain | AuthenticatorClient.py:118 | a name without colons is used as it is |
| Client.CreateQRCode | AuthenticatorClient.py:110-141 | nothing is saved when `save` is false or the image exists; otherwise the image is named by the file name and the account's record with that name is appended |
| Client.SavedImageRecord | AuthenticatorClient.py:134-138 | the appended record names the colon-free file and reads back as the account's row |
| Client.UpdateArgv | AuthenticatorClient.py:185-186 | the argument list of one account has nine tokens |
| Client.UpdateNow | AuthenticatorClient.py:181-188 | one argument list per saved row, in order |
| Client.EmptyNotFlag | AuthenticatorClient.py:315-320 | the empty token put in place of `-display` names no member |
| Client.DisplayStep | AuthenticatorClient.py:185-186 | read as a flag, `-display` turns display on, and the empty token in its place changes nothing |
| Client.UpdateArgvParse | AuthenticatorClient.py:181-188 | each run of `update_now` gets the account's name, issuer and secret verbatim, display as given, `-qr` and `-g` on, `-now` off and no verification |
| Client.DefaultsAt | AuthenticatorClient.py:149-151 | every member starts at False (switches) or None |
| Client.FirstPass | AuthenticatorClient.py:250-251 | the attempt found is the first accepted code among the first `n`; none found means all of them were refused |
| Client.Retry | AuthenticatorClient.py:248-258 | the prompt passes at the first accepted code among the first four; otherwise none of those is accepted, and it is exhausted iff at least five codes were typed |
| Client.VerifyPrompt | AuthenticatorClient.py:248-258 | the prompt ends as the outcome function says; at most 5 codes are read and 4 checked; after four refusals 5 codes were read but only 4 checked; the pass message is printed iff the code passed and display is on |
| Client.RetryCases | AuthenticatorClient.py:248-258 | the prompt passes iff one of the first four codes is accepted; it is exhausted iff five codes were typed and the first four refused; it runs out of input otherwise |
| Client.FirstPassPrefix | AuthenticatorClient.py:250-251 | the search for an accepted code depends only on the codes it looks at |
| Client.FifthCodeUnchecked | AuthenticatorClient.py:249-255 | the fifth code typed never changes the outcome |
| Client.SecretFromArgs | AuthenticatorClient.py:191-208 | the alias is returned as given; a named file that could be read supplies the secret, and when its contents are empty the alias decides even if `-s` is set; with no readable file a non-empty `-s` value is the secret; otherwise the alias decides: None for no alias, the derived secret for a short one, an error for a long one; a returned secret is never empty |
| Client.SecretFromEmptyFile | AuthenticatorClient.py:197-205 | a secret file read as empty leaves the choice to the alias whatever `-s` holds, and without an alias gives no secret |
| Client.SecretFromAliasOnly | AuthenticatorClient.py:204-205 | without a file or a secret: no alias gives None; a short alias gives a secret that decodes to the first 20 bytes of its digest |
| Client.GenCodeFromArgs | AuthenticatorClient.py:210-218 | the account's issuer, name and secret with the six-digit HOTP code of the window and a remaining time in 1..30 that reaches the next boundary, or the error of `generate_otp` |

## Left out

- The clock: `datetime.now`, `time.mktime` on a local-time tuple, and `time_offset_sec` are not modelled. `GenerateOtp` takes the resulting timestamp in whole seconds. `RemainTime` and `GenCodeFromArgs` take the clock's second.
- Floating point: `t / 30` is modelled as exact division truncated toward zero. Rounding of very large floats is not modelled.
- HMAC-SHA1 and SHA-512 are function parameters with 20- and 64-byte results. The UTF-8 encoding of the alias is folded into the SHA-512 parameter.
- pyotp:
  - `random_base32` is not modelled; `SecretFromArgs` returns None where the client would make a random secret.
  - `provisioning_uri` is not modelled.
  - `TOTP.verify` is the `verify` parameter of `VerifyPrompt`.
- QR rendering, showing and saving the image, creating the `generated` directory, and the `dir` argument are not modelled. Whether the image file exists is the `present` parameter of `CreateQRCode`.
- JSON is not modelled:
  - reading and writing `saved.json` is replaced by the `records` field of `SavedFile`;
  - `json.loads` of the target in `delete_otp` is left out; the target is given as a record;
  - record values are null or strings, and other JSON values are not modelled.
- `os.remove` of the QR image after `delete_otp` writes the list is not modelled, nor the KeyError it raises for a target without `QR`. `os.system` in `open_qr` is not modelled.
- Console output is not modelled: `VerifyData.display`, the colours, and the `Secret:` line of `get_secret_from_args`. The pass message of the prompt is only the `printed` result.
- Console input is modelled as the sequence of lines typed. Running out of lines (EOFError) is the `EndOfInput` outcome.
- Reading the secret file is the `fileRead` parameter of `SecretFromArgs`; None means opening or reading failed.
- The dispatch of `run` (lines 221-247) is not modelled as one operation. It only chains operations modelled here (`LoadArgs`, `SecretFromArgs`, `GenCodeFromArgs`, `CreateQRCode`, `VerifyPrompt`) with file and console I/O.
- Store.ContextFindsRecord: does not cover a saved record whose secret is `""`. `update_now` then passes `-s ''`, which is falsy, so the client falls back to the alias (None here) and to a random secret, and the context shown carries that random secret, not the saved one. Nor does it cover a name, issuer or secret containing a space: `get_saved_info` splits the context on spaces (main.py:75), so a quoted value with a space in it is never one token. Records printing as that issuer and name are passed over (`Store.SpacedContextMisses`); in a store holding only that record nothing is found and `context_menu` indexes None; and a quote before the space can make a different account match (`Store.SpacedContextOtherAccount`).
- Store.SpacedContextNotFound: proves the lookup finds nothing only for a store holding just that record. With other records a different account can be returned, as `Store.SpacedContextOtherAccount` shows, so `context_menu` may offer another account for deletion.
- Totp.IntToBytestring: takes a `nat`. For a negative `i` the source never returns, because Python's `>>` on a negative number floors to -1 forever; `generate_otp` refuses a negative window before calling it, so only that path is modelled.
- Totp.Offset: computes `hmac_hash[-1] & 0xf` of line 87 as `% 16` on the byte's integer value; the bitwise mask is not modelled.
- Totp.Truncate: computes lines 88-91 on integers with `%`, `*` and `+`. `Totp.FieldsAdd` proves on 32-bit words that the masks, shifts and ors equal that sum; the conversion between bytes as integers and 32-bit words is not proved.
- Client.UpdateNow: returns the argument lists `update_now` runs the client with, not the codes the runs produce. Those are `GenCodeFromArgs` results.
- Client.UpdateArgvParse: only covers rows whose name, issuer and secret are strings. A null value of a saved row becomes a None token, and `Parse` takes string tokens only.
- The launcher plumbing is not modelled: the rest of `query` (its context string is `Store.Context`), `RegexList` filtering, `QueryResult`, `add_otp`, `copyData`, `open_qr`. Their module is not part of this model.
- The lazy caching of `Args.all` and `Args.bools` is modelled as constants.
