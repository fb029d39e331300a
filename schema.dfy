/**
 * The three tables of the lead-tracking database (users, leads,
 * feedback_changes) as typed records, and the constraints SQLite keeps
 * on them: AUTOINCREMENT primary keys and a UNIQUE username.
 */
module Schema {

  datatype Option<+T> = None | Some(value: T)

  /** A `datetime.now()` value; the model never inspects it. */
  datatype Timestamp = Timestamp(micros: int)

  datatype User = User(id: int, username: string, role: string)

  datatype Lead = Lead(
    id: int,
    leadName: string,
    assignedTo: int,
    status: string,
    feedback: string,
    updatedAt: Timestamp)

  datatype FeedbackChange = FeedbackChange(
    id: int,
    leadId: int,
    oldFeedback: string,
    newFeedback: string,
    changeDate: Timestamp)

  /** The exceptions a handler can raise while it talks to the database. */
  datatype Error =
    | NoSuchTable(table: string)  // sqlite3.OperationalError before init_db ran
    | NoRow                       // `fetchone()` returned None and `[0]` failed
    | Overflow                    // a Python int outside SQLite's 64-bit INTEGER bound as a parameter

  datatype Result<+T> = Ok(value: T) | Err(error: Error)

  /** What a writing handler leaves behind: its connection either commits or rolls back. */
  datatype Outcome = Committed | RolledBack(error: Error)

  /**
   * The database file. `hasTables` is false until init_db has created the
   * tables; the three counters are the `sqlite_sequence` entries, the largest
   * id each AUTOINCREMENT table has handed out.
   */
  datatype Database = Database(
    hasTables: bool,
    users: seq<User>,
    leads: seq<Lead>,
    changes: seq<FeedbackChange>,
    userSeq: int,
    leadSeq: int,
    changeSeq: int)

  const UsersTable := "users"
  const LeadsTable := "leads"
  const ChangesTable := "feedback_changes"

  const AdminName := "admin"
  const AdminRole := "admin"
  const TelecallerRole := "telecaller"
  const StatusNew := "New"
  const StatusUpdated := "Updated"

  /** The range of a 64-bit SQLite INTEGER, the widest value `sqlite3` binds from a Python int. */
  const MinInteger := -0x8000_0000_0000_0000
  const MaxInteger := 0x7fff_ffff_ffff_ffff

  predicate Binds(n: int) {
    MinInteger <= n <= MaxInteger
  }

  /** A database file that does not exist yet, or exists without tables. */
  const NoDatabase := Database(false, [], [], [], 0, 0, 0)

  /** Users in rowid order under their AUTOINCREMENT counter, usernames UNIQUE. */
  predicate UsersValid(users: seq<User>, last: int) {
    && (forall i :: 0 <= i < |users| ==> 0 < users[i].id <= last)
    && (forall i, j :: 0 <= i < j < |users| ==> users[i].id < users[j].id)
    && (forall i, j :: 0 <= i < j < |users| ==> users[i].username != users[j].username)
  }

  /** Leads in rowid order under their AUTOINCREMENT counter. */
  predicate LeadsValid(leads: seq<Lead>, last: int) {
    && (forall i :: 0 <= i < |leads| ==> 0 < leads[i].id <= last)
    && (forall i, j :: 0 <= i < j < |leads| ==> leads[i].id < leads[j].id)
  }

  /** Change rows in rowid order under their AUTOINCREMENT counter. */
  predicate ChangesValid(changes: seq<FeedbackChange>, last: int) {
    && (forall i :: 0 <= i < |changes| ==> 0 < changes[i].id <= last)
    && (forall i, j :: 0 <= i < j < |changes| ==> changes[i].id < changes[j].id)
  }

  /**
   * What SQLite itself guarantees of the file. Rows of a rowid table are
   * scanned in rowid order, so `SELECT *` without `ORDER BY` returns them in
   * the order of these sequences. The foreign keys are declared but not
   * enforced, so they are not part of this predicate.
   */
  predicate Valid(d: Database) {
    && (!d.hasTables ==> d == NoDatabase)
    && 0 <= d.userSeq && 0 <= d.leadSeq && 0 <= d.changeSeq
    && UsersValid(d.users, d.userSeq)
    && LeadsValid(d.leads, d.leadSeq)
    && ChangesValid(d.changes, d.changeSeq)
  }

  /** A row inserted with the next AUTOINCREMENT id keeps the leads table in order. */
  lemma LeadsAppendValid(leads: seq<Lead>, last: int, l: Lead)
    requires LeadsValid(leads, last) && 0 <= last && l.id == last + 1
    ensures LeadsValid(leads + [l], last + 1)
  {
  }

  /** A row inserted with the next AUTOINCREMENT id keeps the feedback_changes table in order. */
  lemma ChangesAppendValid(changes: seq<FeedbackChange>, last: int, c: FeedbackChange)
    requires ChangesValid(changes, last) && 0 <= last && c.id == last + 1
    ensures ChangesValid(changes + [c], last + 1)
  {
  }

  /** A row with the next AUTOINCREMENT id and a fresh username keeps the users table valid. */
  lemma UsersAppendValid(users: seq<User>, last: int, u: User)
    requires UsersValid(users, last) && 0 <= last && u.id == last + 1
    requires forall k :: 0 <= k < |users| ==> users[k].username != u.username
    ensures UsersValid(users + [u], last + 1)
  {
  }
}
