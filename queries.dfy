/**
 * The read-only handlers: the admin dashboard, the telecaller dashboard and
 * the row set behind the feedback report. Each is a function of the database;
 * none changes it.
 */
module Queries {
  import opened Seqs
  import opened Schema

  /** `SELECT ... FROM users WHERE username = ?` */
  function UsersNamed(users: seq<User>, name: string): (r: seq<User>)
    ensures forall u :: u in r <==> u in users && u.username == name
  {
    Where(users, (u: User) => u.username == name)
  }

  /** The lookup on a users table that grew by one row at its end. */
  lemma UsersNamedAppend(users: seq<User>, u: User, name: string)
    ensures UsersNamed(users + [u], name) == UsersNamed(users, name) + (if u.username == name then [u] else [])
  {
    WhereAppend(users, u, (x: User) => x.username == name);
  }

  /** The UNIQUE constraint on `username` lets at most one row through the lookup. */
  lemma {:induction false} UniqueNameMatchesOnce(users: seq<User>, last: int, name: string)
    requires UsersValid(users, last)
    ensures |UsersNamed(users, name)| <= 1
    ensures forall i :: 0 <= i < |users| && users[i].username == name ==> UsersNamed(users, name) == [users[i]]
  {
    if users != [] {
      var rest := users[1..];
      assert UsersValid(rest, last) by {
        forall i, j | 0 <= i < j < |rest| ensures rest[i].id < rest[j].id && rest[i].username != rest[j].username {
          assert rest[i] == users[i + 1] && rest[j] == users[j + 1];
        }
      }
      UniqueNameMatchesOnce(rest, last, name);
      if users[0].username == name {
        forall u | u in rest ensures u.username != name {
          var k :| 0 <= k < |rest| && rest[k] == u;
          assert users[k + 1] == u;
        }
        WhereNone(rest, (u: User) => u.username == name);
      }
      forall i | 0 <= i < |users| && users[i].username == name ensures UsersNamed(users, name) == [users[i]] {
        if i > 0 {
          assert users[0].username != name;
          assert rest[i - 1] == users[i];
        }
      }
    }
  }

  /** `SELECT * FROM users WHERE role = "telecaller"` */
  function Telecallers(users: seq<User>): (r: seq<User>)
    ensures forall u :: u in r <==> u in users && u.role == TelecallerRole
    ensures forall u :: multiset(r)[u] == if u.role == TelecallerRole then multiset(users)[u] else 0
  {
    WhereCounts(users, (u: User) => u.role == TelecallerRole);
    Where(users, (u: User) => u.role == TelecallerRole)
  }

  /** `SELECT * FROM leads WHERE assigned_to = ?` */
  function AssignedTo(leads: seq<Lead>, userId: int): (r: seq<Lead>)
    ensures forall l :: l in r <==> l in leads && l.assignedTo == userId
    ensures forall l :: multiset(r)[l] == if l.assignedTo == userId then multiset(leads)[l] else 0
  {
    WhereCounts(leads, (l: Lead) => l.assignedTo == userId);
    Where(leads, (l: Lead) => l.assignedTo == userId)
  }

  datatype AdminPage = AdminPage(leads: seq<Lead>, telecallers: seq<User>)

  /** The admin dashboard: every lead, and every user whose role is "telecaller". */
  function AdminDashboard(d: Database): (r: Result<AdminPage>)
    ensures r.Err? <==> !d.hasTables
    ensures r.Err? ==> r.error == NoSuchTable(LeadsTable)
    ensures r.Ok? ==> r.value.leads == d.leads
    ensures r.Ok? ==> forall u :: u in r.value.telecallers <==> u in d.users && u.role == TelecallerRole
    ensures r.Ok? ==> forall u ::
      multiset(r.value.telecallers)[u] == if u.role == TelecallerRole then multiset(d.users)[u] else 0
  {
    if !d.hasTables then Err(NoSuchTable(LeadsTable))
    else Ok(AdminPage(d.leads, Telecallers(d.users)))
  }

  /**
   * The telecaller dashboard for the `username` query argument (None when the
   * argument is absent, which SQL compares as NULL and so matches no row): the
   * id of the first user so named, then that user's leads.
   */
  function TelecallerDashboard(d: Database, username: Option<string>): (r: Result<seq<Lead>>)
    requires Valid(d)
    ensures r.Err? <==> !d.hasTables || username.None? || forall u :: u in d.users ==> u.username != username.value
    ensures r.Err? ==> r.error == if d.hasTables then NoRow else NoSuchTable(UsersTable)
    ensures r.Ok? ==>
      exists i :: 0 <= i < |d.users| && d.users[i].username == username.value &&
        r.value == AssignedTo(d.leads, d.users[i].id)
  {
    if !d.hasTables then Err(NoSuchTable(UsersTable))
    else if username.None? then Err(NoRow)
    else
      var found := UsersNamed(d.users, username.value);
      if found == [] then Err(NoRow)
      else
        assert found[0] in found;
        Ok(AssignedTo(d.leads, found[0].id))
  }

  /** One line of the feedback report. */
  datatype ReportRow = ReportRow(
    leadName: string,
    status: string,
    oldFeedback: string,
    newFeedback: string,
    changeDate: Timestamp)

  /** The projection `l.lead_name, l.status, fc.old_feedback, fc.new_feedback, fc.change_date`. */
  function RowOf(l: Lead, c: FeedbackChange): ReportRow {
    ReportRow(l.leadName, l.status, c.oldFeedback, c.newFeedback, c.changeDate)
  }

  /** The joined rows that one change row produces, one per lead whose id matches. */
  function RowsFor(c: FeedbackChange, leads: seq<Lead>): (r: seq<ReportRow>)
    ensures forall row :: row in r <==> exists l :: l in leads && l.id == c.leadId && row == RowOf(l, c)
  {
    if leads == [] then []
    else (if leads[0].id == c.leadId then [RowOf(leads[0], c)] else []) + RowsFor(c, leads[1..])
  }

  /** `feedback_changes fc JOIN leads l ON fc.lead_id = l.id`, change rows taken in storage order. */
  function Join(changes: seq<FeedbackChange>, leads: seq<Lead>): (r: seq<ReportRow>)
    ensures forall row :: row in r <==>
      exists c, l :: c in changes && l in leads && c.leadId == l.id && row == RowOf(l, c)
  {
    if changes == [] then []
    else RowsFor(changes[0], leads) + Join(changes[1..], leads)
  }

  /** The rows of the report (the spreadsheet body, without its header). */
  function Report(d: Database): (r: Result<seq<ReportRow>>)
    ensures r.Err? <==> !d.hasTables
    ensures r.Err? ==> r.error == NoSuchTable(ChangesTable)
    ensures r.Ok? ==> forall row :: row in r.value <==>
      exists c, l :: c in d.changes && l in d.leads && c.leadId == l.id && row == RowOf(l, c)
  {
    if !d.hasTables then Err(NoSuchTable(ChangesTable)) else Ok(Join(d.changes, d.leads))
  }

  /** Every change row names a lead that exists (the declared, unenforced foreign key). */
  predicate ChangesReferenceLeads(d: Database) {
    forall c :: c in d.changes ==> exists l :: l in d.leads && l.id == c.leadId
  }

  /** Some lead has the id that change row `c` names. */
  predicate HasLead(leads: seq<Lead>, c: FeedbackChange) {
    exists l :: l in leads && l.id == c.leadId
  }

  /** The change rows that name an existing lead, in storage order: the ones the inner join keeps. */
  function Matched(changes: seq<FeedbackChange>, leads: seq<Lead>): (r: seq<FeedbackChange>)
    ensures forall c :: c in r <==> c in changes && HasLead(leads, c)
  {
    Where(changes, (c: FeedbackChange) => HasLead(leads, c))
  }

  /** The inner join drops exactly the change rows that name no lead. */
  lemma {:induction false} JoinMatched(changes: seq<FeedbackChange>, leads: seq<Lead>)
    ensures Join(changes, leads) == Join(Matched(changes, leads), leads)
  {
    if changes != [] {
      var c := changes[0];
      var rest := changes[1..];
      JoinMatched(rest, leads);
      var m := Matched(rest, leads);
      if HasLead(leads, c) {
        assert Matched(changes, leads) == [c] + m;
        assert ([c] + m)[0] == c && ([c] + m)[1..] == m;
      } else {
        assert Matched(changes, leads) == m;
        RowsForNone(c, leads);
      }
    }
  }

  /**
   * On any database with tables, orphan change rows included, the report has
   * exactly one row per change row that names an existing lead, in storage
   * order, built from that change row and the one lead it names.
   */
  lemma ReportMatchedOneToOne(d: Database)
    requires Valid(d) && d.hasTables
    ensures var matched := Matched(d.changes, d.leads);
      && Report(d).Ok?
      && |Report(d).value| == |matched|
      && forall k, j :: 0 <= k < |matched| && 0 <= j < |d.leads| && d.leads[j].id == matched[k].leadId ==>
           Report(d).value[k] == RowOf(d.leads[j], matched[k])
  {
    var matched := Matched(d.changes, d.leads);
    JoinMatched(d.changes, d.leads);
    assert forall c :: c in matched ==> HasLead(d.leads, c);
    JoinOneToOne(matched, d.leads, d.leadSeq);
  }

  /** A change row that names no lead contributes nothing to the inner join. */
  lemma {:induction false} RowsForNone(c: FeedbackChange, leads: seq<Lead>)
    requires forall l :: l in leads ==> l.id != c.leadId
    ensures RowsFor(c, leads) == []
  {
    if leads != [] {
      assert leads[0] in leads;
      RowsForNone(c, leads[1..]);
    }
  }

  /** With unique lead ids, a change row joins with exactly the one lead it names. */
  lemma {:induction false} RowsForUnique(c: FeedbackChange, leads: seq<Lead>, last: int, j: int)
    requires LeadsValid(leads, last)
    requires 0 <= j < |leads| && leads[j].id == c.leadId
    ensures RowsFor(c, leads) == [RowOf(leads[j], c)]
  {
    var rest := leads[1..];
    assert LeadsValid(rest, last) by {
      forall i, k | 0 <= i < k < |rest| ensures rest[i].id < rest[k].id {
        assert rest[i] == leads[i + 1] && rest[k] == leads[k + 1];
      }
    }
    if j == 0 {
      forall l | l in rest ensures l.id != c.leadId {
        var k :| 0 <= k < |rest| && rest[k] == l;
        assert leads[k + 1] == l;
      }
      RowsForNone(c, rest);
    } else {
      assert leads[0].id < leads[j].id;
      assert rest[j - 1] == leads[j];
      RowsForUnique(c, rest, last, j - 1);
    }
  }

  /**
   * On a database whose change rows all name an existing lead, the report has
   * exactly one row per change row, in order, carrying that lead's CURRENT
   * name and status together with the change's own old and new feedback.
   */
  lemma {:induction false} ReportOneToOne(d: Database)
    requires Valid(d) && d.hasTables && ChangesReferenceLeads(d)
    ensures Report(d).Ok?
    ensures |Report(d).value| == |d.changes|
    ensures forall k, j :: 0 <= k < |d.changes| && 0 <= j < |d.leads| && d.leads[j].id == d.changes[k].leadId ==>
      Report(d).value[k] == RowOf(d.leads[j], d.changes[k])
  {
    JoinOneToOne(d.changes, d.leads, d.leadSeq);
  }

  lemma {:induction false} JoinOneToOne(changes: seq<FeedbackChange>, leads: seq<Lead>, last: int)
    requires LeadsValid(leads, last)
    requires forall c :: c in changes ==> exists l :: l in leads && l.id == c.leadId
    ensures |Join(changes, leads)| == |changes|
    ensures forall k, j :: 0 <= k < |changes| && 0 <= j < |leads| && leads[j].id == changes[k].leadId ==>
      Join(changes, leads)[k] == RowOf(leads[j], changes[k])
  {
    if changes != [] {
      var c := changes[0];
      assert c in changes;
      var l :| l in leads && l.id == c.leadId;
      var j0 :| 0 <= j0 < |leads| && leads[j0] == l;
      RowsForUnique(c, leads, last, j0);
      var rest := changes[1..];
      assert forall x :: x in rest ==> x in changes;
      JoinOneToOne(rest, leads, last);
      var r := Join(changes, leads);
      assert r == [RowOf(l, c)] + Join(rest, leads);
      forall k, j | 0 <= k < |changes| && 0 <= j < |leads| && leads[j].id == changes[k].leadId
        ensures r[k] == RowOf(leads[j], changes[k])
      {
        if k > 0 {
          assert changes[k] == rest[k - 1];
        }
      }
    }
  }
}
