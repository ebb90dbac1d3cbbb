/** The user table and the file that holds it: `users.json`, read whole by
    `load_users` once a request has passed its endpoint's first input check,
    and rewritten whole by `save_users` after a registration that answers 201. */
module UserStore {

  datatype Option<T> = None | Some(value: T)

  /** One value of the JSON object. A file edited by hand may lack either
      field, and `login` looks both up with `dict.get`, so both are optional. */
  datatype UserRecord = UserRecord(passwordHash: Option<string>, createdAt: Option<string>)

  /** The JSON object: normalised email to record. */
  type Table = map<string, UserRecord>

  /** What a path on disk holds, as far as `load_users` can tell. */
  datatype StoredFile =
    | Missing                 // `os.path.exists` is false
    | DictFile(table: Table)  // parses as a JSON object
    | NonDictFile             // parses as JSON, but not as an object
    | CorruptFile             // `json.load` raises `JSONDecodeError`
    | UnreadableFile          // any other failure: permissions, I/O, bytes that are not UTF-8

  /** The two paths the store touches: `users.json` and `users.json.corrupt`. */
  datatype Disk = Disk(main: StoredFile, corrupt: StoredFile)

  /** The table `load_users` returns for a file: the object's own entries
      when the file parses as a JSON object, the empty table in every other
      state. */
  function LoadedTable(f: StoredFile): (t: Table)
    ensures f.DictFile? ==> t == f.table
    ensures !f.DictFile? ==> t == map[]
  {
    match f
    case DictFile(t) => t
    case _ => map[]
  }

  /** The disk after `load_users`. A corrupt file is moved to
      `users.json.corrupt` when the rename succeeds (`renamed`); a failed
      rename is only logged. Nothing else is touched. */
  function AfterLoad(d: Disk, renamed: bool): (d': Disk)
    ensures LoadedTable(d'.main) == LoadedTable(d.main)
    ensures d.main != CorruptFile ==> d' == d
    ensures d.main == CorruptFile ==> d'.main == (if renamed then Missing else CorruptFile)
    ensures d'.corrupt == (if d.main == CorruptFile && renamed then CorruptFile else d.corrupt)
  {
    if d.main.CorruptFile? && renamed then Disk(Missing, CorruptFile) else d
  }

  /** The disk after `save_users(t)`. The table goes to a temporary file that
      then replaces `users.json`; when either step fails (`written` false) the
      error is only logged and `users.json` keeps what it had. */
  function AfterSave(d: Disk, t: Table, written: bool): (d': Disk)
    ensures LoadedTable(d'.main) == (if written then t else LoadedTable(d.main))
    ensures written ==> d'.main.DictFile?
    ensures !written ==> d' == d
    ensures d'.corrupt == d.corrupt
  {
    if written then d.(main := DictFile(t)) else d
  }

  /** Two loads with no save between them return equal tables, whatever the
      renames do. */
  lemma {:induction false} LoadTwice(d: Disk, renamed1: bool, renamed2: bool)
    ensures LoadedTable(AfterLoad(AfterLoad(d, renamed1), renamed2).main) == LoadedTable(d.main)
    ensures AfterLoad(d, renamed1).main != CorruptFile ==> AfterLoad(AfterLoad(d, renamed1), renamed2) == AfterLoad(d, renamed1)
  {
  }

  /** A save that goes through is read back unchanged, field for field. */
  lemma SaveThenLoad(d: Disk, t: Table, renamed: bool)
    ensures LoadedTable(AfterLoad(AfterSave(d, t, true), renamed).main) == t
    ensures AfterLoad(AfterSave(d, t, true), renamed) == AfterSave(d, t, true)
  {
  }
}
