# Dialer System lead store, modelled in Dafny

The Dialer System is a small Flask web application that tracks sales leads in
an SQLite file with three tables:

- `users`: the admin and the telecallers;
- `leads`: each lead carries a name, the id of the telecaller it is assigned
  to, a status ("New" or "Updated"), the latest feedback and an update time;
- `feedback_changes`: an audit trail with one row per feedback update, holding
  the old feedback, the new feedback and the time of the change.

This project models the part of `app.py` that reads and writes those tables:

- `init_db` creates the tables and seeds the "admin" user;
- `add_lead` and `update_lead` are the two writing handlers;
- the admin dashboard lists every lead and every telecaller;
- the telecaller dashboard looks up a user by name and lists that user's leads;
- the feedback report joins change rows with their leads.

Modules:

- `Seqs` (`seqs.dfy`): the `WHERE` filter over a table scan.
- `Schema` (`schema.dfy`):
  - the rows of the three tables as datatypes;
  - the exceptions a handler can raise: `NoSuchTable` before `init_db` has run, `NoRow` when `fetchone()` returns nothing, and `Overflow` when a Python int parameter does not fit SQLite's 64-bit INTEGER;
  - the database value with its three AUTOINCREMENT counters;
  - `Valid`, which holds what SQLite itself keeps true: ids are ascending and bounded by their counter, usernames are unique, and there are no rows before the tables exist.
- `Queries` (`queries.dfy`): the read-only handlers as functions of the database.
- `Operations` (`operations.dfy`):
  - each writing handler as a transition of the database value that returns `Err` when the handler raises;
  - `Settle`, which rolls a failed handler back;
  - a lemma beside each transition that says what it writes.
- `LeadStore` (`store.dfy`): the database file as a class whose fields are the tables and counters. Its methods `InitDb`, `AddLead` and `UpdateLead` change those fields in place, and each is proved to leave exactly the state the matching transition in `Operations` computes.
- `History` (`history.dfy`): handler calls run one after another (`Run` over a sequence of `Request`s), and the audit-trail invariant `Consistent`. `Consistent` says:
  - every change row names an existing lead;
  - each lead's feedback is the new feedback of the last row in its trail, or "" when the trail is empty;
  - each trail is a chain: every row starts from the feedback the row before it ended with, and the first row starts from "".

  The lemmas in `History` show that every handler keeps `Consistent`. They also show that N updates of one lead append N rows to its trail, carrying the requested feedback in request order, and that the lead is left with the last update's feedback.

## Model

| member | source | states |
|---|---|---|
| Schema.UsersAppendValid | app.py:18-22 | a user row inserted under the next AUTOINCREMENT id with a username not yet taken keeps ids ascending and usernames unique |
| Schema.LeadsAppendValid | app.py:24-32 | a lead inserted under the next AUTOINCREMENT id keeps the leads table in ascending id order below its counter |
| Schema.ChangesAppendValid | app.py:34-42 | a change row inserted under the next AUTOINCREMENT id keeps the feedback_changes table in ascending id order below its counter |
| Queries.UsersNamed | app.py:103 | the lookup by username returns exactly the users with that name |
| Queries.UniqueNameMatchesOnce | app.py:103-104 | because usernames are UNIQUE, the lookup returns at most one row, and exactly `[u]` when some user `u` has the name |
| Queries.Telecallers | app.py:55 | the admin dashboard's user list holds exactly the users whose role is "telecaller", each as many times as it occurs in the table (once), and no other user |
| Queries.AssignedTo | app.py:105-106 | the telecaller's lead list holds exactly the leads whose `assigned_to` is the given user id, each as many times as it occurs in the table, and no other lead |
| Queries.AdminDashboard | app.py:51-56 | it fails with "no such table: leads" exactly when `init_db` has not run; otherwise it shows every lead, in table order, and exactly the telecallers, each once |
| Queries.TelecallerDashboard | app.py:100-106 | it fails exactly when the tables are missing (users table error), the username argument is absent, or no user has that name (`fetchone()` gives no row); otherwise it shows the `assigned_to` filter of the leads table for the id of a user with that name |
| Queries.RowsFor | app.py:89 | a change row joins with exactly the leads whose id equals its `lead_id` |
| Queries.Join | app.py:86-90 | the inner join's rows are exactly the pairs of a change row and a lead with matching ids, projected to name, status, old and new feedback and change date |
| Queries.Report | app.py:84-91 | the report fails exactly when the tables are missing; otherwise its rows are exactly the inner join of feedback_changes with leads |
| Queries.RowsForNone | app.py:89 | a change row whose lead does not exist adds no row to the report |
| Queries.RowsForUnique | app.py:89 | with unique lead ids, a change row joins with exactly the one lead it names |
| Queries.JoinOneToOne | app.py:86-90 | when every change row names an existing lead, the join has one row per change row, in change order, built from that change and its lead |
| Queries.Matched | app.py:89 | the change rows the inner join keeps are exactly those whose `lead_id` names an existing lead |
| Queries.JoinMatched | app.py:86-90 | the inner join drops exactly the change rows that name no lead: joining all change rows gives the same rows, in the same order and number, as joining only the matched ones |
| Queries.ReportMatchedOneToOne | app.py:84-91 | on any database with tables, orphan change rows included, the report has exactly one row per change row that names an existing lead, in storage order, built from that change row and the one lead it names |
| Queries.ReportOneToOne | app.py:84-91 | on a database with tables whose change rows all name a lead, the report succeeds, has one row per change row, and row k carries change k's feedback with the current name and status of its lead |
| Operations.Settle | app.py:17 | the database after `with get_db() as conn` closes: the handler's writes when it returned normally, the database as it was when it raised (a definition; its consequences are stated by `AddLeadAllOrNothing` and `UpdateLeadAllOrNothing`) |
| Operations.OutcomeOf | app.py:63 | whether the connection context committed or rolled back, and with which error (a definition) |
| Operations.InitDbStep | app.py:16-43 | init_db always succeeds, leaves the tables in place and keeps the table constraints |
| Operations.SeedsOneAdmin | app.py:43 | after init_db exactly one user is called "admin"; at most one user row is appended and it is ("admin", "admin"); an existing "admin" leaves the users untouched; each call uses up one users id, since SQLite allocates the AUTOINCREMENT id before the UNIQUE check ignores the row; leads and change rows are untouched |
| Operations.InitDbIdempotent | app.py:16-43 | running init_db a second time changes no table and only advances the users counter past the ignored row's id |
| Operations.AddLeadStep | app.py:63-65 | add_lead fails with "no such table: leads" exactly when init_db has not run, and otherwise with `Overflow` exactly when the assignee does not fit a 64-bit INTEGER; otherwise it keeps the table constraints |
| Operations.AddLeadAllOrNothing | app.py:63-65 | a committed add_lead always changes the database, and one that raised leaves it exactly as it was and reports its error |
| Operations.AddLeadAppends | app.py:63-65 | a committed add_lead appends exactly one lead, with a larger id than every existing lead, the given name and assignee, status "New", empty feedback and the clock reading; users and change rows are untouched |
| Operations.LeadIndex | app.py:74-75 | the SELECT by id finds the first lead with that id, and finds none exactly when no lead has it |
| Operations.UpdateWhereId | app.py:76-77 | the UPDATE gives every row with the id the new feedback, status "Updated" and the clock reading, and leaves every other row as it was |
| Operations.UpdateKeepsLeadsValid | app.py:76-77 | the UPDATE keeps the leads table in id order |
| Operations.UpdateLeadStep | app.py:72-79 | update_lead fails before any write exactly when the tables are missing, the id does not fit a 64-bit INTEGER (`Overflow`), or no lead has the id (`NoRow`); otherwise it keeps the table constraints |
| Operations.UpdateLeadWrites | app.py:74-79 | a committed update_lead rewrites exactly the rows with that id and appends exactly one change row; that row holds the lead id, the lead's feedback before the update, the new feedback, the second clock reading and an id larger than every earlier change; users are untouched |
| Operations.UpdateOneRow | app.py:74-79 | with unique ids, update_lead of a binding id is the same as rewriting the one row found by the SELECT and appending the change row |
| Operations.UpdateLeadAllOrNothing | app.py:72-79 | a committed update_lead always changes the database, and one that raised leaves it exactly as it was and reports its error |
| History.ChangesFor | app.py:78-79 | a lead's audit trail is exactly the change rows that name the lead |
| History.Consistent | app.py:74-79 | the audit-trail invariant: every change row names an existing lead, each lead's feedback is the new feedback of the last row of its trail ("" for an empty trail), and each trail is a chain starting from "" (a definition) |
| History.FreshDatabaseConsistent | app.py:16-43 | a file without tables keeps the audit-trail invariant |
| History.FeedbackIsNewestChange | app.py:74-79 | under the invariant, a lead's feedback is the new feedback of the change row with the largest id among those that name it |
| History.InitDbKeepsConsistent | app.py:16-43 | init_db keeps the audit-trail invariant |
| History.AddLeadKeepsConsistent | app.py:63-65 | add_lead keeps the audit-trail invariant: the new lead has an empty trail and empty feedback |
| History.TrailAfterAppend | app.py:78-79 | appending a change row keeps each lead's trail a chain, and the trail ends with the lead's new feedback |
| History.ChainedAppend | app.py:78-79 | a row that starts from the feedback a chain ends with extends the chain |
| History.ReferencesAfterAppend | app.py:78-79 | appending a change row about an existing lead keeps every change row pointing at a lead |
| History.ConsistentAfterUpdate | app.py:74-79 | the UPDATE of the found row together with the appended change row keeps the audit-trail invariant |
| History.UpdateLeadKeepsConsistent | app.py:74-79 | update_lead keeps the audit-trail invariant |
| History.Apply | app.py:16-80 | one handler call, committed or rolled back, keeps the table constraints and takes nothing back: users and change rows are only appended, and no lead loses its id, name or assignee |
| History.Run | app.py:16-80 | any sequence of handler calls keeps the table constraints and takes nothing back |
| History.RunSnoc | app.py:16-80 | handling one more request after a run is the same as handling it as the last request of the run |
| History.RunKeepsConsistent | app.py:16-80 | any sequence of handler calls keeps the audit-trail invariant |
| History.RunKeepsTrail | app.py:78-79 | no sequence of handler calls removes or rewrites a row of any lead's audit trail |
| History.UpdateOnce | app.py:74-79 | one update of an existing lead appends one row to that lead's trail, holding the requested feedback, and leaves the lead with that feedback and status "Updated" |
| History.OtherRequestKeepsTrail | app.py:16-80 | init_db, add_lead and an update of another lead, committed or rolled back, leave a lead's audit trail as it was |
| History.MixedRunTrail | app.py:68-79 | in any run, whatever other requests it holds, an existing lead's trail grows by exactly one row per request that updates it, and the new rows carry the requested feedback in request order |
| History.RepeatedUpdatesTrail | app.py:74-79 | N updates of one existing lead append exactly N rows to its trail, and their new feedbacks are the requested ones in request order |
| History.LastUpdateWins | app.py:76-77 | whatever came before, a run that ends with an update of a lead leaves that lead with that update's feedback and status "Updated" |
| History.RepeatedUpdatesLatest | app.py:74-79 | under the invariant, after N updates the lead's trail ends with the last requested feedback, which is also the lead's feedback |
| History.ReachableConsistent | app.py:16-91 | every database reached from a new file by any sequence of handler calls keeps the audit-trail invariant, and once it has tables its report has one row per change row, built from that change and its lead |
| LeadStore.Store.Open | app.py:11-14 | opening a connection to a file gives a store whose tables are the file's contents |
| LeadStore.Store.InitDb | app.py:16-43 | the in-place init_db leaves exactly the state `InitDbStep` computes and keeps the table constraints |
| LeadStore.Store.AddLead | app.py:59-66 | the in-place add_lead commits exactly `AddLeadStep`'s state, or rolls back with its error (missing table or overflowing assignee) and leaves the tables as they were |
| LeadStore.Store.UpdateLead | app.py:68-80 | the in-place update_lead commits exactly `UpdateLeadStep`'s state, or rolls back with its error (missing table, overflowing id or missing lead) and leaves the tables as they were |
| LeadStore.Store.WriteFeedback | app.py:76-79 | once row i has been found, the UPDATE of that row and the INSERT of the change row leave exactly the state `UpdateLeadStep` computes |

## Left out

- Flask routing, templates, redirects and the index page are not modelled. Request parsing is not modelled either: a missing form field or a non-numeric `assigned_to` raises before any database access. The handlers take already-parsed arguments.
- Only the row set of the report is modelled. The pandas DataFrame, its column header row, the Excel encoding and `send_file` are left out.
- The SQLite engine itself is not modelled: SQL parsing, column type affinity, connections and the database file name. A table is a sequence of rows, and `Store.Open` takes the file's contents as a value.
- `datetime.now()` becomes opaque `Timestamp` parameters. update_lead reads the clock twice, so it takes two of them.
- Concurrent requests are not modelled. `History.Run` handles requests one at a time, so a race between two update_lead calls on the same lead is not captured.
- Row order: a `SELECT` without `ORDER BY` is taken to scan in rowid order, which is the order of the sequences.
- Queries.Join: the join follows feedback_changes order. SQLite's planner may choose another order, since the query has no `ORDER BY`. The function's own contract states which rows appear. Their number and position are stated by `Queries.JoinMatched` and `Queries.JoinOneToOne`.
- Queries.Report: the function's own contract states which rows appear. One row per change row that names a lead is stated by `Queries.ReportMatchedOneToOne`.
- Queries.Telecallers: the contract states which users are listed and how often, not their order. `Seqs.Where` keeps table order by its definition, but no contract says so.
- Queries.AssignedTo: the contract states which leads are listed and how often, not their order, for the same reason.
- Queries.AdminDashboard: the telecaller list is stated by its rows and their counts, not by order.
- Queries.Telecallers: the filter writes "telecaller" in double quotes. SQLite reads it as a string only through its fallback for double-quoted identifiers that name no column. The model assumes that fallback is compiled in; without it the query fails with "no such column".
- Foreign keys are declared but SQLite does not enforce them, so the model does not enforce them either. add_lead accepts any assignee that fits a 64-bit INTEGER, whether or not such a user exists. That every change row names a lead is proved as part of `History.Consistent`, not assumed.
- Other binding failures are not modelled. The text parameters are taken to encode, which holds for the strings Flask decodes from a request.
- Operations.SeedsOneAdmin: `INSERT OR IGNORE` leaves a pre-existing user called "admin" as it is. The contract therefore promises one user named "admin", not that this user's role is "admin".
- AUTOINCREMENT exhaustion is not modelled. Ids and counters are unbounded integers, so the SQLITE_FULL error at the largest 64-bit rowid is not captured. The history lemmas about updates of a lead therefore ask that its id binds.
- Operations.InitDbStep: the users counter follows the engine, which allocates the AUTOINCREMENT id before the UNIQUE check ignores the row. SQLite's documentation promises only that such an id might be skipped, so the exact counter value after a second init_db rests on the engine, not on a documented guarantee.
- The application never creates telecaller users and never deletes rows. No operation for either exists, and the users table changes only through init_db.
