/**
 * The writing handlers as transitions of the database value: init_db,
 * add_lead and update_lead. A transition that returns `Err` stands for a
 * handler that raised; its connection context rolls back, so the database is
 * left as it was. Each transition's own contract says when it fails and that
 * it keeps the table constraints; a lemma beside it says what it writes.
 */
module Operations {
  import opened Schema
  import opened Queries

  /** The database after a handler's connection closes: committed, or rolled back on an exception. */
  function Settle(d: Database, step: Result<Database>): Database {
    if step.Ok? then step.value else d
  }

  /** What the connection context did with a handler's writes. */
  function OutcomeOf(step: Result<Database>): Outcome {
    if step.Ok? then Committed else RolledBack(step.error)
  }

  /**
   * init_db: `CREATE TABLE IF NOT EXISTS` for the three tables, then
   * `INSERT OR IGNORE` of the user ("admin", "admin"). SQLite allocates the
   * AUTOINCREMENT id before it checks the UNIQUE username, so the users
   * counter advances even when an existing "admin" makes the row be ignored.
   */
  function InitDbStep(d: Database): (r: Database)
    requires Valid(d)
    ensures Valid(r) && r.hasTables
  {
    var created := d.(hasTables := true, userSeq := d.userSeq + 1);
    if UsersNamed(d.users, AdminName) != [] then
      created
    else
      var admin := User(created.userSeq, AdminName, AdminRole);
      assert forall k :: 0 <= k < |d.users| ==> d.users[k].username != AdminName by {
        forall k | 0 <= k < |d.users| ensures d.users[k].username != AdminName {
          assert d.users[k] in d.users;
        }
      }
      UsersAppendValid(d.users, d.userSeq, admin);
      created.(users := d.users + [admin])
  }

  /**
   * What init_db writes: afterwards exactly one user is called "admin"; at
   * most one user row is appended and it is ("admin", "admin"); a database
   * that already had an "admin" keeps its users as they were; each call
   * uses up one users id; leads and change rows are untouched.
   */
  lemma SeedsOneAdmin(d: Database)
    requires Valid(d)
    ensures var r := InitDbStep(d);
      && |UsersNamed(r.users, AdminName)| == 1
      && d.users <= r.users && |r.users| <= |d.users| + 1
      && (forall i :: |d.users| <= i < |r.users| ==> r.users[i].username == AdminName && r.users[i].role == AdminRole)
      && (UsersNamed(d.users, AdminName) != [] ==> r.users == d.users)
      && r.userSeq == d.userSeq + 1
      && r.leads == d.leads && r.changes == d.changes
      && r.leadSeq == d.leadSeq && r.changeSeq == d.changeSeq
  {
    var r := InitDbStep(d);
    UniqueNameMatchesOnce(d.users, d.userSeq, AdminName);
    if UsersNamed(d.users, AdminName) == [] {
      var admin := User(d.userSeq + 1, AdminName, AdminRole);
      assert r.users == d.users + [admin];
      UsersNamedAppend(d.users, admin, AdminName);
    }
  }

  /** The two outcomes of init_db's `INSERT OR IGNORE`, row by row. */
  lemma InitDbCases(d: Database)
    requires Valid(d)
    ensures UsersNamed(d.users, AdminName) != [] ==> InitDbStep(d) == d.(hasTables := true, userSeq := d.userSeq + 1)
    ensures UsersNamed(d.users, AdminName) == [] ==>
      InitDbStep(d) == d.(hasTables := true, users := d.users + [User(d.userSeq + 1, AdminName, AdminRole)], userSeq := d.userSeq + 1)
  {
  }

  /** Running init_db a second time changes no table; only the users counter moves past the ignored row's id. */
  lemma InitDbIdempotent(d: Database)
    requires Valid(d)
    ensures var once := InitDbStep(d);
      InitDbStep(once) == once.(userSeq := once.userSeq + 1)
  {
    SeedsOneAdmin(d);
  }

  /**
   * add_lead: insert a lead with status "New" and empty feedback. The
   * assignee is not checked against the users table (the foreign key is
   * declared but SQLite does not enforce it by default). `sqlite3` prepares
   * the statement, which fails on a missing table, before it binds the
   * parameters, which fails on an assignee outside the 64-bit range.
   */
  function AddLeadStep(d: Database, leadName: string, assignedTo: int, now: Timestamp): (r: Result<Database>)
    requires Valid(d)
    ensures r.Err? <==> !d.hasTables || !Binds(assignedTo)
    ensures r.Err? ==> r.error == if d.hasTables then Overflow else NoSuchTable(LeadsTable)
    ensures r.Ok? ==> Valid(r.value) && r.value.hasTables
  {
    if !d.hasTables then
      Err(NoSuchTable(LeadsTable))
    else if !Binds(assignedTo) then
      Err(Overflow)
    else
      var lead := Lead(d.leadSeq + 1, leadName, assignedTo, StatusNew, "", now);
      LeadsAppendValid(d.leads, d.leadSeq, lead);
      Ok(d.(leads := d.leads + [lead], leadSeq := d.leadSeq + 1))
  }

  /**
   * What a committed add_lead writes: one lead appended after the others,
   * under a larger id than any of them, holding the given name and assignee,
   * status "New", empty feedback and the clock reading; users and change
   * rows are untouched.
   */
  lemma AddLeadAppends(d: Database, leadName: string, assignedTo: int, now: Timestamp)
    requires Valid(d)
    ensures var r := AddLeadStep(d, leadName, assignedTo, now);
      r.Ok? ==>
        && r.value.users == d.users && r.value.changes == d.changes
        && |r.value.leads| == |d.leads| + 1 && d.leads <= r.value.leads
        && var l := r.value.leads[|d.leads|];
           && l.leadName == leadName && l.assignedTo == assignedTo
           && l.status == StatusNew && l.feedback == "" && l.updatedAt == now
           && forall k :: 0 <= k < |d.leads| ==> d.leads[k].id < l.id
  {
  }

  /** `SELECT feedback FROM leads WHERE id = ?` followed by `fetchone()`: the first matching row. */
  function LeadIndex(leads: seq<Lead>, id: int): (r: Option<nat>)
    ensures r.Some? ==> r.value < |leads| && leads[r.value].id == id
    ensures r.Some? ==> forall k :: 0 <= k < r.value ==> leads[k].id != id
    ensures r.None? <==> forall k :: 0 <= k < |leads| ==> leads[k].id != id
  {
    if leads == [] then None
    else if leads[0].id == id then Some(0)
    else
      match LeadIndex(leads[1..], id)
      case None => None
      case Some(k) => Some(k + 1)
  }

  /** The row that `UPDATE leads SET feedback = ?, status = 'Updated', updated_at = ?` writes. */
  function Touched(l: Lead, feedback: string, at: Timestamp): Lead {
    l.(feedback := feedback, status := StatusUpdated, updatedAt := at)
  }

  /** The same UPDATE applied, as SQL does, to every row `WHERE id = ?`. */
  function UpdateWhereId(leads: seq<Lead>, id: int, feedback: string, at: Timestamp): (r: seq<Lead>)
    ensures |r| == |leads|
    ensures forall k :: 0 <= k < |leads| ==>
      r[k] == if leads[k].id == id then Touched(leads[k], feedback, at) else leads[k]
  {
    if leads == [] then []
    else
      [if leads[0].id == id then Touched(leads[0], feedback, at) else leads[0]]
      + UpdateWhereId(leads[1..], id, feedback, at)
  }

  /** The UPDATE leaves ids alone, so the leads table stays in rowid order. */
  lemma UpdateKeepsLeadsValid(leads: seq<Lead>, last: int, id: int, feedback: string, at: Timestamp)
    requires LeadsValid(leads, last)
    ensures LeadsValid(UpdateWhereId(leads, id, feedback, at), last)
  {
    var r := UpdateWhereId(leads, id, feedback, at);
    assert forall k :: 0 <= k < |leads| ==> r[k].id == leads[k].id;
  }

  /**
   * update_lead: read the lead's current feedback (raising when the lead is
   * missing, or its id does not bind, before anything is written), overwrite
   * feedback, status and updated_at, then append one feedback_changes row.
   * `updatedAt` and `changeDate` are the two separate `datetime.now()` calls.
   */
  function UpdateLeadStep(d: Database, leadId: int, feedback: string, updatedAt: Timestamp, changeDate: Timestamp)
    : (r: Result<Database>)
    requires Valid(d)
    ensures r.Err? <==> !d.hasTables || !Binds(leadId) || forall k :: 0 <= k < |d.leads| ==> d.leads[k].id != leadId
    ensures r.Err? ==> r.error == if !d.hasTables then NoSuchTable(LeadsTable) else if !Binds(leadId) then Overflow else NoRow
    ensures r.Ok? ==> Valid(r.value) && r.value.hasTables
  {
    if !d.hasTables then
      Err(NoSuchTable(LeadsTable))
    else if !Binds(leadId) then
      Err(Overflow)
    else
      match LeadIndex(d.leads, leadId)
      case None => Err(NoRow)
      case Some(i) =>
        var previous := d.leads[i].feedback;
        var change := FeedbackChange(d.changeSeq + 1, leadId, previous, feedback, changeDate);
        ChangesAppendValid(d.changes, d.changeSeq, change);
        UpdateKeepsLeadsValid(d.leads, d.leadSeq, leadId, feedback, updatedAt);
        Ok(d.(leads := UpdateWhereId(d.leads, leadId, feedback, updatedAt),
              changes := d.changes + [change],
              changeSeq := d.changeSeq + 1))
  }

  /**
   * What a committed update_lead writes: every row with the id gets the new
   * feedback, status "Updated" and the first clock reading, the others stay
   * as they were; exactly one change row is appended, recording the lead,
   * its feedback before and after, and the second clock reading, under a
   * larger id than any earlier change; users are untouched.
   */
  lemma UpdateLeadWrites(d: Database, leadId: int, feedback: string, updatedAt: Timestamp, changeDate: Timestamp)
    requires Valid(d)
    ensures var r := UpdateLeadStep(d, leadId, feedback, updatedAt, changeDate);
      r.Ok? ==>
        && r.value.users == d.users
        && |r.value.leads| == |d.leads|
        && (forall k :: 0 <= k < |d.leads| ==>
              r.value.leads[k] == if d.leads[k].id == leadId then Touched(d.leads[k], feedback, updatedAt) else d.leads[k])
        && |r.value.changes| == |d.changes| + 1 && d.changes <= r.value.changes
        && var c := r.value.changes[|d.changes|];
           && c.leadId == leadId && c.newFeedback == feedback && c.changeDate == changeDate
           && (forall k :: 0 <= k < |d.leads| && d.leads[k].id == leadId ==> c.oldFeedback == d.leads[k].feedback)
           && (forall k :: 0 <= k < |d.changes| ==> d.changes[k].id < c.id)
  {
    var r := UpdateLeadStep(d, leadId, feedback, updatedAt, changeDate);
    if r.Ok? {
      var i := LeadIndex(d.leads, leadId).value;
      var c := FeedbackChange(d.changeSeq + 1, leadId, d.leads[i].feedback, feedback, changeDate);
      var leads := UpdateWhereId(d.leads, leadId, feedback, updatedAt);
      assert r.value == d.(leads := leads, changes := d.changes + [c], changeSeq := d.changeSeq + 1);
      assert r.value.changes[|d.changes|] == c;
      forall k | 0 <= k < |d.leads| && d.leads[k].id == leadId
        ensures c.oldFeedback == d.leads[k].feedback
      {
        assert k == i;
      }
    }
  }

  /**
   * With ids unique, `UPDATE ... WHERE id = ?` on an existing id rewrites
   * exactly that one row, so update_lead is the same as rewriting the row
   * found by the SELECT and appending the change row.
   */
  lemma UpdateOneRow(d: Database, i: nat, leadId: int, feedback: string, updatedAt: Timestamp, changeDate: Timestamp)
    requires Valid(d) && d.hasTables && Binds(leadId) && LeadIndex(d.leads, leadId) == Some(i)
    ensures UpdateLeadStep(d, leadId, feedback, updatedAt, changeDate)
      == Ok(d.(leads := d.leads[i := Touched(d.leads[i], feedback, updatedAt)],
               changes := d.changes + [FeedbackChange(d.changeSeq + 1, leadId, d.leads[i].feedback, feedback, changeDate)],
               changeSeq := d.changeSeq + 1))
  {
    var r := UpdateWhereId(d.leads, leadId, feedback, updatedAt);
    forall k | 0 <= k < |d.leads| && k != i
      ensures r[k] == d.leads[k]
    {
      assert d.leads[k].id != d.leads[i].id by {
        if k < i { assert d.leads[k].id < d.leads[i].id; } else { assert d.leads[i].id < d.leads[k].id; }
      }
    }
    assert r == d.leads[i := Touched(d.leads[i], feedback, updatedAt)];
  }

  /**
   * `with get_db() as conn` makes add_lead all or nothing: a committed call
   * always leaves a different database (it appended a lead), and a call that
   * raised leaves the database exactly as it was and reports its error.
   */
  lemma AddLeadAllOrNothing(d: Database, leadName: string, assignedTo: int, now: Timestamp)
    requires Valid(d)
    ensures var step := AddLeadStep(d, leadName, assignedTo, now);
      && (OutcomeOf(step) == Committed <==> Settle(d, step) != d)
      && (OutcomeOf(step).RolledBack? ==> Settle(d, step) == d && OutcomeOf(step).error == step.error)
  {
    AddLeadAppends(d, leadName, assignedTo, now);
  }

  /** The same for update_lead, whose commit always appends a change row. */
  lemma UpdateLeadAllOrNothing(d: Database, leadId: int, feedback: string, updatedAt: Timestamp, changeDate: Timestamp)
    requires Valid(d)
    ensures var step := UpdateLeadStep(d, leadId, feedback, updatedAt, changeDate);
      && (OutcomeOf(step) == Committed <==> Settle(d, step) != d)
      && (OutcomeOf(step).RolledBack? ==> Settle(d, step) == d && OutcomeOf(step).error == step.error)
  {
    UpdateLeadWrites(d, leadId, feedback, updatedAt, changeDate);
  }
}
