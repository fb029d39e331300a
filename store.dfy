/**
 * The database file as an object the handlers write to. Each writing
 * handler is a method that changes the tables in place and is proved to
 * leave exactly the state its transition in `Operations` describes.
 */
module LeadStore {
  import opened Schema
  import opened Queries
  import opened Operations

  class Store {
    var hasTables: bool
    var users: seq<User>
    var leads: seq<Lead>
    var changes: seq<FeedbackChange>
    var userSeq: int
    var leadSeq: int
    var changeSeq: int

    /** The tables and counters as one value. */
    function State(): Database
      reads this
    {
      Database(hasTables, users, leads, changes, userSeq, leadSeq, changeSeq)
    }

    ghost predicate Valid()
      reads this
    {
      Schema.Valid(State())
    }

    /** A connection to a database file holding `d`. */
    constructor Open(d: Database)
      requires Schema.Valid(d)
      ensures State() == d && Valid()
    {
      hasTables, users, leads, changes := d.hasTables, d.users, d.leads, d.changes;
      userSeq, leadSeq, changeSeq := d.userSeq, d.leadSeq, d.changeSeq;
    }

    /**
     * init_db: create the tables if missing, allocate the next users id and
     * seed the admin user under it unless one is already called "admin".
     */
    method InitDb()
      modifies this
      requires Valid()
      ensures Valid()
      ensures State() == InitDbStep(old(State()))
    {
      InitDbCases(State());
      hasTables := true;
      userSeq := userSeq + 1;
      if UsersNamed(users, AdminName) == [] {
        users := users + [User(userSeq, AdminName, AdminRole)];
      }
    }

    /** add_lead: commits one new lead once the tables exist and the assignee binds, and rolls back otherwise. */
    method AddLead(leadName: string, assignedTo: int, now: Timestamp) returns (o: Outcome)
      modifies this
      requires Valid()
      ensures Valid()
      ensures State() == Settle(old(State()), AddLeadStep(old(State()), leadName, assignedTo, now))
      ensures o == OutcomeOf(AddLeadStep(old(State()), leadName, assignedTo, now))
    {
      if !hasTables {
        return RolledBack(NoSuchTable(LeadsTable));
      }
      if !Binds(assignedTo) {
        return RolledBack(Overflow);
      }
      leadSeq := leadSeq + 1;
      leads := leads + [Lead(leadSeq, leadName, assignedTo, StatusNew, "", now)];
      o := Committed;
    }

    /**
     * update_lead: reads the lead's feedback, rewrites the lead, then appends
     * one change row; a missing table, an id outside the 64-bit range or a
     * missing lead raises before anything is written.
     */
    method UpdateLead(leadId: int, feedback: string, updatedAt: Timestamp, changeDate: Timestamp)
      returns (o: Outcome)
      modifies this
      requires Valid()
      ensures Valid()
      ensures State() == Settle(old(State()), UpdateLeadStep(old(State()), leadId, feedback, updatedAt, changeDate))
      ensures o == OutcomeOf(UpdateLeadStep(old(State()), leadId, feedback, updatedAt, changeDate))
    {
      if !hasTables {
        return RolledBack(NoSuchTable(LeadsTable));
      }
      if !Binds(leadId) {
        return RolledBack(Overflow);
      }
      var found := LeadIndex(leads, leadId);
      if found.None? {
        return RolledBack(NoRow);
      }
      WriteFeedback(found.value, leadId, feedback, updatedAt, changeDate);
      o := Committed;
    }

    /**
     * The two writes of update_lead once the SELECT found row `i`: the UPDATE
     * of that row and the INSERT of the change row.
     */
    method WriteFeedback(i: nat, leadId: int, feedback: string, updatedAt: Timestamp, changeDate: Timestamp)
      modifies this
      requires Valid() && hasTables && Binds(leadId) && LeadIndex(leads, leadId) == Some(i)
      ensures Valid()
      ensures State() == UpdateLeadStep(old(State()), leadId, feedback, updatedAt, changeDate).value
    {
      UpdateOneRow(State(), i, leadId, feedback, updatedAt, changeDate);
      var change := FeedbackChange(changeSeq + 1, leadId, leads[i].feedback, feedback, changeDate);
      leads, changes, changeSeq := leads[i := Touched(leads[i], feedback, updatedAt)], changes + [change], changeSeq + 1;
    }
  }
}
