/** The account logic of the two API endpoints: `register` inserts one
    record into the user table, `login` looks one up. */
module Accounts {
  import opened UserStore
  import opened Credentials
  import opened EmailNormalization

  /** The public part of an account that a successful login returns. It has
      no field for the password hash, so no response can carry one. */
  datatype UserInfo = UserInfo(email: string, createdAt: Option<string>)

  /** An HTTP status with the JSON body's `message` and, for a login, `user`. */
  datatype Response = Response(status: int, message: string, user: Option<UserInfo>)

  const InvalidInputMessage := "Invalid email or password (min length 6)."
  const DuplicateMessage := "Email already exists"
  const CreatedMessage := "Account created successfully"
  const MissingFieldsMessage := "Email and password required"
  const BadCredentialsMessage := "Invalid email or password"
  const LoginOkMessage := "Login successful"

  /** The password hashing library, left abstract: `hash(salt, password)`
      stands for `generate_password_hash` with the random salt it draws, and
      `check(stored, password)` for `check_password_hash`. */
  datatype Hasher = Hasher(hash: (string, string) -> string, check: (string, string) -> bool)

  /** What the hashing library promises: a hash is never empty and always
      checks against the password it was made from. */
  ghost predicate Sound(h: Hasher) {
    forall salt, password :: h.hash(salt, password) != "" && h.check(h.hash(salt, password), password)
  }

  /** The checks `register` makes before it touches the store. */
  predicate Acceptable(email: string, password: string): (ok: bool)
    ensures ok <==> '@' in email && 5 <= |email| && 6 <= |password|
  {
    IsValidEmail(email) && IsValidPassword(password)
  }

  /** The record `register` stores: the hash of the password and the
      creation time, `isoNow` being `datetime.utcnow().isoformat()`. */
  function NewRecord(h: Hasher, salt: string, password: string, isoNow: string): (rec: UserRecord)
    ensures rec.passwordHash == Some(h.hash(salt, password))
    ensures Sound(h) ==> Authenticates(rec, password, h)
    ensures rec.createdAt == Some(isoNow + "Z")
  {
    UserRecord(Some(h.hash(salt, password)), Some(isoNow + "Z"))
  }

  /** What `register` answers and the table it leaves. */
  datatype Registration = Registration(response: Response, table: Table)

  /** `register` over the table `load_users` returned. */
  function RegisterResult(t: Table, rawEmail: string, password: string, h: Hasher, salt: string, isoNow: string): (g: Registration)
    ensures !Acceptable(Normalize(rawEmail), password) ==>
      g == Registration(Response(400, InvalidInputMessage, None), t)
    ensures Acceptable(Normalize(rawEmail), password) && Normalize(rawEmail) in t ==>
      g == Registration(Response(409, DuplicateMessage, None), t)
    ensures Acceptable(Normalize(rawEmail), password) && Normalize(rawEmail) !in t ==>
      && g.response == Response(201, CreatedMessage, None)
      && g.table.Keys == t.Keys + {Normalize(rawEmail)}
      && |g.table| == |t| + 1
      && g.table[Normalize(rawEmail)] == NewRecord(h, salt, password, isoNow)
      && (forall k :: k in t ==> g.table[k] == t[k])
  {
    var email := Normalize(rawEmail);
    if !IsValidEmail(email) || !IsValidPassword(password) then
      Registration(Response(400, InvalidInputMessage, None), t)
    else if email in t then
      Registration(Response(409, DuplicateMessage, None), t)
    else
      Registration(Response(201, CreatedMessage, None), t[email := NewRecord(h, salt, password, isoNow)])
  }

  /** The check of a stored record against a password: a hash must be
      present, non-empty and must check. */
  predicate Authenticates(rec: UserRecord, password: string, h: Hasher): (ok: bool)
    ensures rec.passwordHash == None || rec.passwordHash == Some("") ==> !ok
    ensures ok ==> rec.passwordHash.Some? && h.check(rec.passwordHash.value, password)
    ensures rec.passwordHash.Some? && rec.passwordHash.value != "" && h.check(rec.passwordHash.value, password) ==> ok
  {
    rec.passwordHash.Some? && rec.passwordHash.value != "" && h.check(rec.passwordHash.value, password)
  }

  /** `login` over the table `load_users` returned. A record that is an empty
      JSON object is falsy in Python and refused first; it has no hash either,
      so it gets the same answer as the check that follows. */
  function LoginResult(t: Table, rawEmail: string, password: string, h: Hasher): (r: Response)
    ensures r.status == 400 <==> Normalize(rawEmail) == [] || password == []
    ensures r.status == 400 ==> r == Response(400, MissingFieldsMessage, None)
    ensures r.status == 200 <==>
      Normalize(rawEmail) != [] && password != [] && Normalize(rawEmail) in t && Authenticates(t[Normalize(rawEmail)], password, h)
    ensures r.status == 200 ==>
      r == Response(200, LoginOkMessage, Some(UserInfo(Normalize(rawEmail), t[Normalize(rawEmail)].createdAt)))
    ensures r.status != 400 && r.status != 200 ==> r == Response(401, BadCredentialsMessage, None)
  {
    var email := Normalize(rawEmail);
    if email == [] || password == [] then
      Response(400, MissingFieldsMessage, None)
    else if email !in t || t[email] == UserRecord(None, None) then
      Response(401, BadCredentialsMessage, None)
    else
      var stored := t[email].passwordHash;
      if stored.None? || stored.value == "" || !h.check(stored.value, password) then
        Response(401, BadCredentialsMessage, None)
      else
        Response(200, LoginOkMessage, Some(UserInfo(email, t[email].createdAt)))
  }

  /** A key `register` can have written: a valid email in normal form. */
  predicate StoredKey(k: string) {
    IsValidEmail(k) && NormalForm(k)
  }

  /** Registration keeps every key of the table a valid email that is its
      own normal form. */
  lemma RegisterKeepsKeysValid(t: Table, rawEmail: string, password: string, h: Hasher, salt: string, isoNow: string)
    requires forall k :: k in t ==> StoredKey(k)
    ensures forall k :: k in RegisterResult(t, rawEmail, password, h, salt, isoNow).table ==> StoredKey(k)
    ensures forall k :: k in RegisterResult(t, rawEmail, password, h, salt, isoNow).table ==> Normalize(k) == k
  {
    NormalizeNormalForm(rawEmail);
    forall k | k in RegisterResult(t, rawEmail, password, h, salt, isoNow).table
      ensures StoredKey(k) && Normalize(k) == k
    {
      NormalizeFixedPoint(k);
    }
  }

  /** Once an email is registered, registering it again in any spelling that
      normalises to the same key is refused as a duplicate (when the password
      is long enough; a short one is refused first, with 400). */
  lemma RegisterTwiceConflicts(t: Table, email1: string, password1: string, email2: string, password2: string,
                               h: Hasher, salt1: string, salt2: string, now1: string, now2: string)
    requires RegisterResult(t, email1, password1, h, salt1, now1).response.status == 201
    requires Normalize(email2) == Normalize(email1)
    ensures var t1 := RegisterResult(t, email1, password1, h, salt1, now1).table;
      && (IsValidPassword(password2) ==> RegisterResult(t1, email2, password2, h, salt2, now2) == Registration(Response(409, DuplicateMessage, None), t1))
      && (!IsValidPassword(password2) ==> RegisterResult(t1, email2, password2, h, salt2, now2) == Registration(Response(400, InvalidInputMessage, None), t1))
  {
  }

  /** With a sound hashing library, an account that was just created accepts
      its own password, under any spelling of the email with the same key,
      and the login answers with the stored creation time. */
  lemma RegisterThenLogin(t: Table, rawEmail: string, password: string, h: Hasher, salt: string, isoNow: string, loginEmail: string)
    requires Sound(h)
    requires RegisterResult(t, rawEmail, password, h, salt, isoNow).response.status == 201
    requires Normalize(loginEmail) == Normalize(rawEmail)
    ensures LoginResult(RegisterResult(t, rawEmail, password, h, salt, isoNow).table, loginEmail, password, h)
         == Response(200, LoginOkMessage, Some(UserInfo(Normalize(rawEmail), Some(isoNow + "Z"))))
  {
    var email := Normalize(rawEmail);
    assert h.hash(salt, password) != "" && h.check(h.hash(salt, password), password);
    assert IsValidEmail(email);
  }

  /** A failed login says nothing about why it failed: an unknown email and
      a wrong password for a known one get the same response. */
  lemma LoginFailuresAlike(t: Table, known: string, unknown: string, wrong: string, h: Hasher)
    requires Normalize(unknown) != [] && Normalize(unknown) !in t
    requires Normalize(known) != [] && Normalize(known) in t && wrong != []
    requires !Authenticates(t[Normalize(known)], wrong, h)
    ensures LoginResult(t, unknown, wrong, h) == LoginResult(t, known, wrong, h)
    ensures LoginResult(t, known, wrong, h) == Response(401, BadCredentialsMessage, None)
  {
  }

  /** The email of the sample session is a valid key in normal form, and its
      spelling "A@B.com " has the same key. */
  lemma SampleEmail()
    ensures IsValidEmail("a@b.com") && Normalize("a@b.com") == "a@b.com" && Normalize("A@B.com ") == "a@b.com"
  {
    var email: string := "a@b.com";
    assert email[1] == '@';
    NormalizeSample();
  }

  /** A session on an empty table: register an email (201), register a
      second spelling of it (409), log in with a wrong password (401), log in
      with the right one (200, with the normalised email). */
  lemma Session(email: string, password: string, spelling: string, other: string, wrong: string,
                h: Hasher, salt: string, isoNow: string)
    requires Sound(h)
    requires IsValidEmail(Normalize(email)) && Normalize(spelling) == Normalize(email)
    requires IsValidPassword(password) && IsValidPassword(other)
    requires wrong != [] && !h.check(h.hash(salt, password), wrong)
    ensures var g1 := RegisterResult(map[], email, password, h, salt, isoNow);
      && g1.response.status == 201
      && RegisterResult(g1.table, spelling, other, h, salt, isoNow).response.status == 409
      && LoginResult(g1.table, email, wrong, h) == Response(401, BadCredentialsMessage, None)
      && LoginResult(g1.table, email, password, h) == Response(200, LoginOkMessage, Some(UserInfo(Normalize(email), Some(isoNow + "Z"))))
  {
    RegisterTwiceConflicts(map[], email, password, spelling, other, h, salt, salt, isoNow, isoNow);
    RegisterThenLogin(map[], email, password, h, salt, isoNow, email);
  }

  /** The sample session: "a@b.com" with "secret1", then "A@B.com ". */
  lemma SampleSession(h: Hasher, salt: string, isoNow: string)
    requires Sound(h)
    requires !h.check(h.hash(salt, "secret1"), "wrong")
    ensures var g1 := RegisterResult(map[], "a@b.com", "secret1", h, salt, isoNow);
      && g1.response.status == 201
      && RegisterResult(g1.table, "A@B.com ", "anything", h, salt, isoNow).response.status == 409
      && LoginResult(g1.table, "a@b.com", "wrong", h) == Response(401, BadCredentialsMessage, None)
      && LoginResult(g1.table, "a@b.com", "secret1", h) == Response(200, LoginOkMessage, Some(UserInfo("a@b.com", Some(isoNow + "Z"))))
  {
    SampleEmail();
    Session("a@b.com", "secret1", "A@B.com ", "anything", "wrong", h, salt, isoNow);
  }

  /** The backend between requests: nothing but what is on disk. A request
      that passes its endpoint's first input check loads the table afresh, and
      only a `register` that answers 201 writes it back. */
  class Backend {
    var disk: Disk

    constructor (d: Disk)
      ensures disk == d
    {
      disk := d;
    }

    /** `load_users`. */
    method Load(renamed: bool) returns (t: Table)
      modifies this
      ensures t == LoadedTable(old(disk).main)
      ensures disk == AfterLoad(old(disk), renamed)
    {
      match disk.main
      case Missing =>
        t := map[];
      case DictFile(table) =>
        t := table;
      case NonDictFile =>
        t := map[];
      case CorruptFile =>
        if renamed {
          disk := Disk(Missing, CorruptFile);
        }
        t := map[];
      case UnreadableFile =>
        t := map[];
    }

    /** `save_users`. */
    method Save(t: Table, written: bool)
      modifies this
      ensures disk == AfterSave(old(disk), t, written)
    {
      if written {
        disk := disk.(main := DictFile(t));
      }
    }

    /** `register`: validate, load, reject a duplicate, insert one record,
      save. The disk changes only on 201; a rejected request does not even
      load, or loads a table holding the email, which a load leaves alone. */
    method Register(rawEmail: string, password: string, h: Hasher, salt: string, isoNow: string, renamed: bool, written: bool)
      returns (r: Response)
      modifies this
      ensures r == RegisterResult(LoadedTable(old(disk).main), rawEmail, password, h, salt, isoNow).response
      ensures r.status != 201 ==> disk == old(disk)
      ensures r.status == 201 ==>
        disk == AfterSave(AfterLoad(old(disk), renamed), RegisterResult(LoadedTable(old(disk).main), rawEmail, password, h, salt, isoNow).table, written)
    {
      var email := Normalize(rawEmail);
      if !IsValidEmail(email) || !IsValidPassword(password) {
        return Response(400, InvalidInputMessage, None);
      }
      var users := Load(renamed);
      if email in users {
        return Response(409, DuplicateMessage, None);
      }
      users := users[email := NewRecord(h, salt, password, isoNow)];
      Save(users, written);
      r := Response(201, CreatedMessage, None);
    }

    /** `login`: a lookup. Its load may move a corrupt file aside, but the
      table on disk stays what it was. */
    method Login(rawEmail: string, password: string, h: Hasher, renamed: bool) returns (r: Response)
      modifies this
      ensures r == LoginResult(LoadedTable(old(disk).main), rawEmail, password, h)
      ensures r.status == 400 ==> disk == old(disk)
      ensures r.status != 400 ==> disk == AfterLoad(old(disk), renamed)
      ensures LoadedTable(disk.main) == LoadedTable(old(disk).main)
    {
      var email := Normalize(rawEmail);
      if email == [] || password == [] {
        return Response(400, MissingFieldsMessage, None);
      }
      var users := Load(renamed);
      if email !in users || users[email] == UserRecord(None, None) {
        return Response(401, BadCredentialsMessage, None);
      }
      var stored := users[email].passwordHash;
      if stored.None? || stored.value == "" || !h.check(stored.value, password) {
        return Response(401, BadCredentialsMessage, None);
      }
      r := Response(200, LoginOkMessage, Some(UserInfo(email, users[email].createdAt)));
    }
  }

  /** A registration on top of a corrupt file always answers 201. The file is
      quarantined when the rename succeeds; when the save succeeds, the main
      file holds just the new account, overwriting the corrupt one if the
      rename failed; when the save fails, the main file is what the load left. */
  method CorruptFileRecovery(rawEmail: string, password: string, h: Hasher, salt: string, isoNow: string, renamed: bool, written: bool)
    returns (b: Backend, r: Response)
    requires Acceptable(Normalize(rawEmail), password)
    ensures r.status == 201
    ensures b.disk.main ==
      if written then DictFile(map[Normalize(rawEmail) := NewRecord(h, salt, password, isoNow)])
      else if renamed then Missing
      else CorruptFile
    ensures b.disk.corrupt == if renamed then CorruptFile else Missing
  {
    b := new Backend(Disk(CorruptFile, Missing));
    r := b.Register(rawEmail, password, h, salt, isoNow, renamed, written);
  }
}
