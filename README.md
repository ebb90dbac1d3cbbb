# Study Tracker backend: account logic

This project models the account part of a small Flask backend. The user table
lives in one JSON file, `users.json`, which maps a normalised email to a record
holding `password_hash` and `created_at`. A request that passes its endpoint's
first input check loads that file afresh; a 400 answer is given before any
load (app.py:74-77, app.py:96-99).
`POST /api/register` checks the credentials, refuses a duplicate, inserts one
record and writes the whole table back. `POST /api/login` looks one record up
and checks the password against its hash. Loading never fails. A missing file,
a JSON value that is not an object, a file that is not valid JSON and any other
read error all give an empty table. A file that is not valid JSON is also
renamed to `users.json.corrupt`.

Modules:

- `Credentials` (credentials.dfy): `is_valid_email` and `is_valid_password`.
- `EmailNormalization` (normalization.dfy): `strip()` followed by `lower()` on
  the email, over ASCII. Python's whitespace set is used (tab to carriage
  return, the four separators 28 to 31, space).
- `UserStore` (user_store.dfy): the record, the table and the states of the
  two files on disk. `AfterLoad` and `AfterSave` describe the effect of
  `load_users` and `save_users` on them.
- `Accounts` (accounts.dfy): `RegisterResult` and `LoginResult` are the
  decision logic of the two endpoints over the loaded table. The `Backend`
  class holds the disk state as a field. Its methods `Load`, `Save`,
  `Register` and `Login` do what the endpoints do, step by step, and are
  proved against those functions.

Outside effects are parameters:

- the password hashing library is a `Hasher` holding two function values. The
  salt it would draw at random is an argument. `Sound(h)` states what the
  library promises: a hash is never empty, and it checks against the password
  it was made from.
- the clock is the argument `isoNow`, the text of
  `datetime.utcnow().isoformat()`. The stored `created_at` is `isoNow + "Z"`.
- whether `os.rename` succeeds is the argument `renamed`. Whether the
  temporary-file write and its `os.replace` succeed is the argument `written`.

A second registration of a registered email gives 409 only when its password
passes validation. `register` validates before it loads (app.py:74), so a
password shorter than six characters gives 400. `RegisterTwiceConflicts`
states both cases.

A file whose bytes are not UTF-8 makes `json.load` raise `UnicodeDecodeError`.
That is not a `JSONDecodeError`, so the general handler catches it: the file is
treated as `UnreadableFile` and is not renamed.

## Model

| member | source | states |
|---|---|---|
| `Credentials.IsValidEmail` | app.py:55-56 | true exactly when the string has at least five characters and an '@' at some position |
| `Credentials.IsValidPassword` | app.py:59-60 | true exactly when the password has at least six characters |
| `EmailNormalization.LowerChar` | app.py:71 | the result is never an upper-case ASCII letter; a letter moves to its lower-case partner; every other character, whitespace in particular, is kept |
| `EmailNormalization.StripLeft` | app.py:71 | the result is no longer than the input and does not start with whitespace |
| `EmailNormalization.StripLeftSuffix` | app.py:71 | stripping on the left keeps a suffix of the input, and everything cut off is whitespace |
| `EmailNormalization.StripRight` | app.py:71 | the result is no longer than the input and does not end with whitespace |
| `EmailNormalization.StripRightPrefix` | app.py:71 | stripping on the right keeps a prefix of the input, and everything cut off is whitespace |
| `EmailNormalization.Strip` | app.py:71 | the result is no longer than the input and has no whitespace at either end |
| `EmailNormalization.StripSplit` | app.py:71 | every string is whitespace, then what strip keeps, then whitespace |
| `EmailNormalization.Lower` | app.py:71 | lowering keeps the length |
| `EmailNormalization.LowerPointwise` | app.py:71 | each character is lowered in place, on its own |
| `EmailNormalization.Normalize` | app.py:71 | the key is never longer than the raw email |
| `EmailNormalization.NormalizeNormalForm` | app.py:71 | every key has no upper-case letter and no whitespace at either end |
| `EmailNormalization.StripOfPadded` | app.py:71 | stripping whitespace padding gives back any core that has no whitespace at its ends (the uniqueness of strip's result) |
| `EmailNormalization.NormalizeFixedPoint` | app.py:71 | a string with no upper-case letter and no whitespace at its ends is its own key |
| `EmailNormalization.NormalizeIdempotent` | app.py:71 | normalising a key again does not change it |
| `EmailNormalization.StripIgnoresPadding` | app.py:71 | extra whitespace around a string does not change what strip keeps |
| `EmailNormalization.NormalizeIgnoresPadding` | app.py:71 | emails that differ only in surrounding whitespace get the same key |
| `EmailNormalization.StripLowerCommute` | app.py:71 | lowering before or after stripping gives the same string |
| `EmailNormalization.NormalizeIgnoresCase` | app.py:71 | emails that differ only in the case of ASCII letters get the same key |
| `EmailNormalization.NormalizeSample` | app.py:71 | "a@b.com" and "A@B.com " both get the key "a@b.com" |
| `UserStore.LoadedTable` | app.py:26-42 | the table `load_users` returns: the object's entries for a file that parses as a JSON object, the empty table for every other file state |
| `UserStore.AfterLoad` | app.py:26-42 | a load never changes the table a later load sees; only a corrupt file is touched, and it moves to `users.json.corrupt` exactly when the rename succeeds |
| `UserStore.AfterSave` | app.py:45-52 | a save that goes through makes the file hold exactly the saved table as a JSON object; a failing save leaves the disk as it was; the quarantined file is never touched |
| `UserStore.LoadTwice` | app.py:26-42 | two loads with no save between them give equal tables, and the second load changes nothing unless the first left a corrupt file in place |
| `UserStore.SaveThenLoad` | app.py:26-52 | a table that was saved is loaded back unchanged, and that load touches nothing |
| `Accounts.Acceptable` | app.py:74 | `register` goes on past its first check exactly when the email has an '@', at least five characters, and the password at least six |
| `Accounts.NewRecord` | app.py:81-85 | the stored record holds the library's hash of the password and `isoNow + "Z"` as its creation time, and with a sound hashing library its hash checks against the password it was made from |
| `Accounts.Authenticates` | app.py:104-105 | a record authenticates exactly when its hash is present, non-empty and the library checks it against the password; a missing or empty hash never does |
| `Accounts.RegisterResult` | app.py:68-87 | 400 with the table unchanged when the normalised email or the password fails validation; 409 with the table unchanged when the key is already present; otherwise 201, with exactly one new key (the normalised email) holding the password's hash and `isoNow + "Z"`, and every old entry unchanged |
| `Accounts.LoginResult` | app.py:90-108 | 400 exactly when the normalised email or the password is empty; 200 exactly when the record exists and its non-empty hash checks, answering with the normalised email and the stored `created_at` only; every other case is one and the same 401 response |
| `Accounts.RegisterKeepsKeysValid` | app.py:71-82 | if every key of the table is a valid email in normal form, that stays true after a registration, so every key is its own normalisation |
| `Accounts.RegisterTwiceConflicts` | app.py:71-79 | after a successful registration, registering any spelling with the same key gives 409 and leaves the table alone; with a short password it gives 400 |
| `Accounts.RegisterThenLogin` | app.py:81-108 | with a sound hashing library, logging in to an account just created, under any spelling with the same key, gives 200 with the normalised email and its creation time |
| `Accounts.LoginFailuresAlike` | app.py:99-106 | a login with an unknown email and one with a wrong password get the identical 401 response |
| `Accounts.SampleEmail` | app.py:55-56 | "a@b.com" is a valid email and its own key, and "A@B.com " has the same key |
| `Accounts.Session` | app.py:68-108 | on an empty table: register 201, a second spelling of the email 409, a wrong password 401, the right password 200 with the normalised email and the stored time |
| `Accounts.SampleSession` | app.py:68-108 | the session above for "a@b.com"/"secret1" and "A@B.com " |
| `Accounts.Backend.Load` | app.py:26-42 | returns the table of the file as it was and leaves the disk as `AfterLoad` says |
| `Accounts.Backend.Save` | app.py:45-52 | leaves the disk as `AfterSave` says |
| `Accounts.Backend.Register` | app.py:68-87 | answers as `RegisterResult` on the table on disk; the disk is unchanged unless the answer is 201; on 201 the disk is the one left by a load followed by a save of the new table |
| `Accounts.Backend.Login` | app.py:90-108 | answers as `LoginResult` on the table on disk; the table on disk stays the same; the disk is untouched on 400 and otherwise changes only as a load changes it |
| `Accounts.CorruptFileRecovery` | app.py:77-86 | an acceptable registration on top of a corrupt file answers 201; the file moves to `users.json.corrupt` exactly when the rename succeeds; when the save succeeds the main file holds only the new account (overwriting the corrupt file if the rename failed), and when it fails the main file is what the load left |

## Left out

- Flask routing, CORS, `jsonify` and the parsing of request bodies: the model starts from the email and password strings the endpoints extract.
- Request values for `email` or `password` that are JSON values other than strings. A falsy one (0, false, [], {}) becomes "" through `or ""` (app.py:71-72, app.py:93-94), which the model covers as the empty string, answered with 400. A truthy non-string email makes `.strip()` raise. A truthy non-string password fails the `isinstance` test of `is_valid_password` in `register` (app.py:60), answered with 400; in `login` it reaches `check_password_hash` only when the record has a non-empty hash (app.py:105), and gets 401 otherwise. The model's inputs are strings only.
- Table values that are not JSON objects, and hash fields that are not strings. A falsy value (null, 0, "", []) is refused with 401 at app.py:101 or app.py:105 without raising; the model has the empty object and the empty or missing hash among these. A truthy non-object value makes `user.get` raise, and a truthy non-string hash is handed to `check_password_hash`. The model's table values are always records with optional string fields.
- A record whose `created_at` is JSON `null` is treated like a record without the field, since `dict.get` gives `None` for both.
- Unicode case mapping and Unicode whitespace in `strip()` and `lower()`: only ASCII letters are lowered and only ASCII whitespace is stripped.
- The hashing library (`generate_password_hash`, `check_password_hash`): only the promise `Sound` is modelled.
- JSON encoding and decoding, the temporary file `users.json.tmp` and logging: the file is an abstract state.
- The race between two concurrent registrations that both load the same table: every operation runs alone.
- `GET /api/health` (a fixed answer), static file serving and `main` with its port parsing.
- EmailNormalization.StripLeft, EmailNormalization.StripRight, EmailNormalization.Strip: their own contracts state only the length and the ends of the result; what is cut off is stated by StripLeftSuffix, StripRightPrefix and StripSplit, to keep proofs that mention these functions cheap.
- EmailNormalization.Lower: its contract states only the length; LowerPointwise states the mapping of each character, for the same reason.
- EmailNormalization.Normalize: its contract states only a length bound; NormalizeNormalForm states the normal form of every key, for the same reason.
