/**
 * The database across a sequence of requests: the audit-trail invariant that
 * update_lead maintains, and what any run of the writing handlers keeps.
 */
module History {
  import opened Seqs
  import opened Schema
  import opened Queries
  import opened Operations

  /** The audit trail of one lead: its change rows, oldest first. */
  function ChangesFor(changes: seq<FeedbackChange>, leadId: int): (r: seq<FeedbackChange>)
    ensures forall c :: c in r <==> c in changes && c.leadId == leadId
  {
    Where(changes, (c: FeedbackChange) => c.leadId == leadId)
  }

  lemma ChangesForAppend(changes: seq<FeedbackChange>, c: FeedbackChange, leadId: int)
    ensures ChangesFor(changes + [c], leadId) == ChangesFor(changes, leadId) + (if c.leadId == leadId then [c] else [])
  {
    WhereAppend(changes, c, (x: FeedbackChange) => x.leadId == leadId);
  }

  /** Appending change rows never rewrites the audit trail of any lead. */
  lemma ChangesForPrefix(changes: seq<FeedbackChange>, later: seq<FeedbackChange>, leadId: int)
    requires changes <= later
    ensures ChangesFor(changes, leadId) <= ChangesFor(later, leadId)
  {
    assert later == changes + later[|changes|..];
    WhereConcat(changes, later[|changes|..], (x: FeedbackChange) => x.leadId == leadId);
  }

  /** The feedback a lead's audit trail ends with; "" before its first change. */
  function LatestFeedback(changes: seq<FeedbackChange>, leadId: int): string {
    var trail := ChangesFor(changes, leadId);
    if trail == [] then "" else trail[|trail| - 1].newFeedback
  }

  /** Each change row starts from the feedback the one before it ended with; the first from "". */
  predicate Chained(trail: seq<FeedbackChange>) {
    && (trail != [] ==> trail[0].oldFeedback == "")
    && forall k :: 0 < k < |trail| ==> trail[k].oldFeedback == trail[k - 1].newFeedback
  }

  /**
   * The invariant the handlers keep on a database they created: every change
   * row names an existing lead, each lead's feedback is the one its audit
   * trail ends with, and each trail is a chain starting from "".
   */
  predicate Consistent(d: Database) {
    && Valid(d)
    && ChangesReferenceLeads(d)
    && (forall k :: 0 <= k < |d.leads| ==> d.leads[k].feedback == LatestFeedback(d.changes, d.leads[k].id))
    && (forall k :: 0 <= k < |d.leads| ==> Chained(ChangesFor(d.changes, d.leads[k].id)))
  }

  /** A file without tables has no lead and no change row, so it keeps the invariant. */
  lemma FreshDatabaseConsistent()
    ensures Consistent(NoDatabase)
  {
  }

  /** The change row with the largest id among those naming a lead is the last row of the lead's trail. */
  lemma NewestIsLast(changes: seq<FeedbackChange>, last: int, c: FeedbackChange)
    requires ChangesValid(changes, last)
    requires c in changes
    requires forall x :: x in changes && x.leadId == c.leadId ==> x.id <= c.id
    ensures ChangesFor(changes, c.leadId) != []
    ensures ChangesFor(changes, c.leadId)[|ChangesFor(changes, c.leadId)| - 1] == c
  {
    var id := c.leadId;
    var p := (x: FeedbackChange) => x.leadId == id;
    var trail := ChangesFor(changes, id);
    assert trail == Where(changes, p);
    assert c in trail;
    var j := WhereLast(changes, p);
    var m :| 0 <= m < |changes| && changes[m] == c;
    assert changes[j].leadId == id && changes[j] in changes;
    assert changes[j].id <= c.id;
    assert m == j;
  }

  /**
   * Under the invariant a lead's feedback is the new feedback of its newest
   * change row, the one with the largest id among the rows that name it.
   */
  lemma FeedbackIsNewestChange(d: Database, k: int, c: FeedbackChange)
    requires Consistent(d) && 0 <= k < |d.leads|
    requires c in d.changes && c.leadId == d.leads[k].id
    requires forall x :: x in d.changes && x.leadId == c.leadId ==> x.id <= c.id
    ensures d.leads[k].feedback == c.newFeedback
  {
    NewestIsLast(d.changes, d.changeSeq, c);
  }

  lemma InitDbKeepsConsistent(d: Database)
    requires Consistent(d)
    ensures Consistent(InitDbStep(d))
  {
    SeedsOneAdmin(d);
  }

  /** A new lead starts with an empty audit trail and empty feedback, so the invariant survives add_lead. */
  lemma {:induction false} AddLeadKeepsConsistent(d: Database, leadName: string, assignedTo: int, now: Timestamp)
    requires Consistent(d)
    ensures AddLeadStep(d, leadName, assignedTo, now).Ok? ==> Consistent(AddLeadStep(d, leadName, assignedTo, now).value)
  {
    var r := AddLeadStep(d, leadName, assignedTo, now);
    AddLeadAppends(d, leadName, assignedTo, now);
    if r.Ok? {
      var e := r.value;
      var n := |d.leads|;
      assert e.leads == d.leads + [e.leads[n]];
      forall c | c in e.changes ensures c.leadId != e.leads[n].id {
        var l :| l in d.leads && l.id == c.leadId;
        var k :| 0 <= k < n && d.leads[k] == l;
      }
      assert ChangesFor(e.changes, e.leads[n].id) == [] by {
        var trail := ChangesFor(e.changes, e.leads[n].id);
        WhereNone(e.changes, (x: FeedbackChange) => x.leadId == e.leads[n].id);
      }
      forall c | c in e.changes ensures exists l :: l in e.leads && l.id == c.leadId {
        var l :| l in d.leads && l.id == c.leadId;
        assert l in e.leads;
      }
    }
  }

  /**
   * One lead's trail after a change row `c` was appended: if `c` is about the
   * lead and starts from the lead's old feedback, the trail stays a chain and
   * ends with `c`'s new feedback; otherwise it is the trail it was.
   */
  lemma TrailAfterAppend(changes: seq<FeedbackChange>, c: FeedbackChange, id: int, previous: string, current: string)
    requires previous == LatestFeedback(changes, id) && Chained(ChangesFor(changes, id))
    requires c.leadId == id ==> c.oldFeedback == previous && c.newFeedback == current
    requires c.leadId != id ==> current == previous
    ensures current == LatestFeedback(changes + [c], id) && Chained(ChangesFor(changes + [c], id))
  {
    ChangesForAppend(changes, c, id);
    var trail := ChangesFor(changes, id);
    if c.leadId == id {
      assert ChangesFor(changes + [c], id) == trail + [c];
      ChainedAppend(trail, c);
    } else {
      assert ChangesFor(changes + [c], id) == trail + [] == trail;
    }
  }

  /** A row that starts from the feedback a chain ends with extends the chain. */
  lemma ChainedAppend(trail: seq<FeedbackChange>, c: FeedbackChange)
    requires Chained(trail)
    requires c.oldFeedback == if trail == [] then "" else trail[|trail| - 1].newFeedback
    ensures Chained(trail + [c])
  {
    var longer := trail + [c];
    forall k | 0 < k < |longer|
      ensures longer[k].oldFeedback == longer[k - 1].newFeedback
    {
      assert longer[k - 1] == trail[k - 1];
      if k < |trail| {
        assert longer[k] == trail[k];
      }
    }
  }

  /** Appending a row about an existing lead keeps every change row pointing at a lead. */
  lemma ReferencesAfterAppend(d: Database, e: Database, c: FeedbackChange, j: int)
    requires ChangesReferenceLeads(d)
    requires e.changes == d.changes + [c]
    requires |e.leads| == |d.leads|
    requires forall k :: 0 <= k < |d.leads| ==> e.leads[k].id == d.leads[k].id
    requires 0 <= j < |d.leads| && d.leads[j].id == c.leadId
    ensures ChangesReferenceLeads(e)
  {
    forall x | x in e.changes ensures exists l :: l in e.leads && l.id == x.leadId {
      var i: int;
      if x == c {
        i := j;
      } else {
        assert x in d.changes;
        var l :| l in d.leads && l.id == x.leadId;
        i :| 0 <= i < |d.leads| && d.leads[i] == l;
      }
      assert e.leads[i] in e.leads;
    }
  }

  /**
   * The invariant survives the two writes of update_lead: the UPDATE of lead
   * `j`'s row and the append of a change row `c` that starts from the
   * feedback lead `j` had.
   */
  lemma ConsistentAfterUpdate(d: Database, e: Database, c: FeedbackChange, j: int, at: Timestamp)
    requires Consistent(d) && Valid(e)
    requires 0 <= j < |d.leads| && d.leads[j].id == c.leadId && c.oldFeedback == d.leads[j].feedback
    requires e.leads == UpdateWhereId(d.leads, c.leadId, c.newFeedback, at)
    requires e.changes == d.changes + [c]
    ensures Consistent(e)
  {
    ReferencesAfterAppend(d, e, c, j);
    forall k | 0 <= k < |e.leads|
      ensures e.leads[k].feedback == LatestFeedback(e.changes, e.leads[k].id)
      ensures Chained(ChangesFor(e.changes, e.leads[k].id))
    {
      assert d.leads[k].id == c.leadId ==> k == j;
      TrailAfterAppend(d.changes, c, d.leads[k].id, d.leads[k].feedback, e.leads[k].feedback);
    }
  }

  /**
   * update_lead records the feedback the lead had as the new row's old
   * feedback, so the trail stays a chain and ends with the lead's feedback.
   */
  lemma {:induction false} UpdateLeadKeepsConsistent(
    d: Database, leadId: int, feedback: string, updatedAt: Timestamp, changeDate: Timestamp)
    requires Consistent(d)
    ensures UpdateLeadStep(d, leadId, feedback, updatedAt, changeDate).Ok? ==>
      Consistent(UpdateLeadStep(d, leadId, feedback, updatedAt, changeDate).value)
  {
    var r := UpdateLeadStep(d, leadId, feedback, updatedAt, changeDate);
    if r.Ok? {
      UpdateLeadWrites(d, leadId, feedback, updatedAt, changeDate);
      var j := LeadIndex(d.leads, leadId).value;
      var c := r.value.changes[|d.changes|];
      ConsistentAfterUpdate(d, r.value, c, j, updatedAt);
    }
  }

  /** A request to one of the writing handlers, with the clock readings it will use. */
  datatype Request =
    | InitDb
    | AddLead(leadName: string, assignedTo: int, now: Timestamp)
    | UpdateLead(leadId: int, feedback: string, updatedAt: Timestamp, changeDate: Timestamp)

  /**
   * What no handler takes back: users and change rows are only ever appended,
   * and no lead is removed or has its id, name or assignee changed.
   */
  predicate Extends(d: Database, e: Database) {
    && d.users <= e.users
    && d.changes <= e.changes
    && |d.leads| <= |e.leads|
    && forall k :: 0 <= k < |d.leads| ==>
         e.leads[k].id == d.leads[k].id && e.leads[k].leadName == d.leads[k].leadName
         && e.leads[k].assignedTo == d.leads[k].assignedTo
  }

  lemma ExtendsTransitive(d: Database, e: Database, f: Database)
    requires Extends(d, e) && Extends(e, f)
    ensures Extends(d, f)
  {
  }

  /** One request handled to completion; its connection commits or rolls back. */
  function Apply(d: Database, req: Request): (r: Database)
    requires Valid(d)
    ensures Valid(r) && Extends(d, r)
  {
    match req
    case InitDb =>
      SeedsOneAdmin(d);
      InitDbStep(d)
    case AddLead(name, who, now) =>
      AddLeadAppends(d, name, who, now);
      Settle(d, AddLeadStep(d, name, who, now))
    case UpdateLead(id, fb, t1, t2) =>
      UpdateLeadWrites(d, id, fb, t1, t2);
      Settle(d, UpdateLeadStep(d, id, fb, t1, t2))
  }

  /** The requests handled one after another: no request takes back what an earlier one wrote. */
  function Run(d: Database, reqs: seq<Request>): (r: Database)
    requires Valid(d)
    ensures Valid(r) && Extends(d, r)
    decreases |reqs|
  {
    if reqs == [] then d
    else
      var next := Apply(d, reqs[0]);
      var r := Run(next, reqs[1..]);
      ExtendsTransitive(d, next, r);
      r
  }

  lemma {:induction false} RunKeepsConsistent(d: Database, reqs: seq<Request>)
    requires Consistent(d)
    ensures Consistent(Run(d, reqs))
    decreases |reqs|
  {
    if reqs != [] {
      match reqs[0] {
        case InitDb => InitDbKeepsConsistent(d);
        case AddLead(name, who, now) => AddLeadKeepsConsistent(d, name, who, now);
        case UpdateLead(id, fb, t1, t2) => UpdateLeadKeepsConsistent(d, id, fb, t1, t2);
      }
      RunKeepsConsistent(Apply(d, reqs[0]), reqs[1..]);
    }
  }

  /** One update of an existing lead appends one row, carrying the new feedback, to its trail. */
  lemma UpdateOnce(d: Database, i: int, req: Request)
    requires Valid(d) && 0 <= i < |d.leads|
    requires req.UpdateLead? && req.leadId == d.leads[i].id && Binds(req.leadId)
    ensures |Apply(d, req).changes| == |d.changes| + 1
    ensures Apply(d, req).changes[|d.changes|].newFeedback == req.feedback
    ensures ChangesFor(Apply(d, req).changes, req.leadId)
      == ChangesFor(d.changes, req.leadId) + [Apply(d, req).changes[|d.changes|]]
    ensures Apply(d, req).leads[i].feedback == req.feedback && Apply(d, req).leads[i].status == StatusUpdated
  {
    UpdateLeadWrites(d, req.leadId, req.feedback, req.updatedAt, req.changeDate);
    var e := Apply(d, req);
    var c := e.changes[|d.changes|];
    assert e.changes == d.changes + [c];
    ChangesForAppend(d.changes, c, req.leadId);
  }

  /** Every request of the run is an update of lead `id`. */
  predicate UpdatesOf(reqs: seq<Request>, id: int) {
    forall k :: 0 <= k < |reqs| ==> reqs[k].UpdateLead? && reqs[k].leadId == id
  }

  /** The feedback each row of a trail ended with, oldest first. */
  function NewFeedbacks(trail: seq<FeedbackChange>): (r: seq<string>)
    ensures |r| == |trail|
  {
    if trail == [] then [] else [trail[0].newFeedback] + NewFeedbacks(trail[1..])
  }

  lemma {:induction false} NewFeedbacksAppend(trail: seq<FeedbackChange>, c: FeedbackChange)
    ensures NewFeedbacks(trail + [c]) == NewFeedbacks(trail) + [c.newFeedback]
  {
    if trail != [] {
      assert (trail + [c])[1..] == trail[1..] + [c];
      NewFeedbacksAppend(trail[1..], c);
    } else {
      assert trail + [c] == [c];
    }
  }

  /** The feedback each update of a run asks for, in request order. */
  function Requested(reqs: seq<Request>): (r: seq<string>)
    requires forall k :: 0 <= k < |reqs| ==> reqs[k].UpdateLead?
    ensures |r| == |reqs|
  {
    if reqs == [] then [] else [reqs[0].feedback] + Requested(reqs[1..])
  }

  /** The trail of a run whose first update appended `c`, glued to the trail of the rest of the run. */
  lemma GlueFeedbacks(before: seq<FeedbackChange>, c: FeedbackChange, after: seq<FeedbackChange>, reqs: seq<Request>)
    requires |reqs| > 0 && forall k :: 0 <= k < |reqs| ==> reqs[k].UpdateLead?
    requires c.newFeedback == reqs[0].feedback
    requires NewFeedbacks(after) == NewFeedbacks(before + [c]) + Requested(reqs[1..])
    ensures NewFeedbacks(after) == NewFeedbacks(before) + Requested(reqs)
  {
    NewFeedbacksAppend(before, c);
    assert Requested(reqs) == [reqs[0].feedback] + Requested(reqs[1..]);
    assert (NewFeedbacks(before) + [c.newFeedback]) + Requested(reqs[1..])
        == NewFeedbacks(before) + ([c.newFeedback] + Requested(reqs[1..]));
  }

  /** No run of requests takes back a row of any lead's audit trail. */
  lemma RunKeepsTrail(d: Database, reqs: seq<Request>, id: int)
    requires Valid(d)
    ensures ChangesFor(d.changes, id) <= ChangesFor(Run(d, reqs).changes, id)
  {
    ChangesForPrefix(d.changes, Run(d, reqs).changes, id);
  }

  /**
   * N successive updates of one existing lead append N rows to its audit
   * trail, and the appended rows carry the requested feedback in request order.
   */
  lemma {:induction false} RepeatedUpdatesTrail(d: Database, i: int, id: int, reqs: seq<Request>)
    requires Valid(d) && 0 <= i < |d.leads| && d.leads[i].id == id && Binds(id) && UpdatesOf(reqs, id)
    ensures NewFeedbacks(ChangesFor(Run(d, reqs).changes, id)) == NewFeedbacks(ChangesFor(d.changes, id)) + Requested(reqs)
    ensures |ChangesFor(Run(d, reqs).changes, id)| == |ChangesFor(d.changes, id)| + |reqs|
    decreases |reqs|
  {
    if reqs == [] {
      assert Run(d, reqs) == d;
    } else {
      var d1 := Apply(d, reqs[0]);
      UpdateOnce(d, i, reqs[0]);
      RepeatedUpdatesTrail(d1, i, id, reqs[1..]);
      GlueFeedbacks(ChangesFor(d.changes, id), d1.changes[|d.changes|], ChangesFor(Run(d, reqs).changes, id), reqs);
    }
  }

  /** The requests of a run that update lead `id`, in request order. */
  function UpdatesTo(reqs: seq<Request>, id: int): (r: seq<Request>)
    ensures |r| <= |reqs|
    ensures forall k :: 0 <= k < |r| ==> r[k].UpdateLead? && r[k].leadId == id
  {
    if reqs == [] then []
    else (if reqs[0].UpdateLead? && reqs[0].leadId == id then [reqs[0]] else []) + UpdatesTo(reqs[1..], id)
  }

  /** A request that does not update lead `id` leaves that lead's audit trail as it was. */
  lemma OtherRequestKeepsTrail(d: Database, id: int, req: Request)
    requires Valid(d) && !(req.UpdateLead? && req.leadId == id)
    ensures ChangesFor(Apply(d, req).changes, id) == ChangesFor(d.changes, id)
  {
    match req {
      case InitDb =>
        SeedsOneAdmin(d);
      case AddLead(name, who, now) =>
        AddLeadAppends(d, name, who, now);
      case UpdateLead(other, fb, t1, t2) =>
        var step := UpdateLeadStep(d, other, fb, t1, t2);
        if step.Ok? {
          UpdateLeadWrites(d, other, fb, t1, t2);
          var c := step.value.changes[|d.changes|];
          assert step.value.changes == d.changes + [c];
          ChangesForAppend(d.changes, c, id);
        }
    }
  }

  /**
   * In any run, whatever else it holds, an existing lead's audit trail grows
   * by one row per request that updates the lead, and the new rows carry the
   * feedback those requests asked for, in request order.
   */
  lemma {:induction false} MixedRunTrail(d: Database, i: int, id: int, reqs: seq<Request>)
    requires Valid(d) && 0 <= i < |d.leads| && d.leads[i].id == id && Binds(id)
    ensures NewFeedbacks(ChangesFor(Run(d, reqs).changes, id))
      == NewFeedbacks(ChangesFor(d.changes, id)) + Requested(UpdatesTo(reqs, id))
    ensures |ChangesFor(Run(d, reqs).changes, id)| == |ChangesFor(d.changes, id)| + |UpdatesTo(reqs, id)|
    decreases |reqs|
  {
    if reqs == [] {
      assert Run(d, reqs) == d;
    } else {
      var req := reqs[0];
      var d1 := Apply(d, req);
      MixedRunTrail(d1, i, id, reqs[1..]);
      var after := ChangesFor(Run(d, reqs).changes, id);
      assert after == ChangesFor(Run(d1, reqs[1..]).changes, id);
      if req.UpdateLead? && req.leadId == id {
        UpdateOnce(d, i, req);
        assert UpdatesTo(reqs, id) == [req] + UpdatesTo(reqs[1..], id);
        assert UpdatesTo(reqs, id)[1..] == UpdatesTo(reqs[1..], id);
        GlueFeedbacks(ChangesFor(d.changes, id), d1.changes[|d.changes|], after, UpdatesTo(reqs, id));
      } else {
        OtherRequestKeepsTrail(d, id, req);
        assert UpdatesTo(reqs, id) == UpdatesTo(reqs[1..], id);
      }
    }
  }

  /** Handling one more request after a run is the same as handling it as part of the run. */
  lemma {:induction false} RunSnoc(d: Database, reqs: seq<Request>, last: Request)
    requires Valid(d)
    ensures Run(d, reqs + [last]) == Apply(Run(d, reqs), last)
    decreases |reqs|
  {
    if reqs == [] {
      assert [] + [last] == [last];
      assert Run(Apply(d, last), []) == Apply(d, last);
    } else {
      assert (reqs + [last])[1..] == reqs[1..] + [last];
      RunSnoc(Apply(d, reqs[0]), reqs[1..], last);
    }
  }

  /**
   * Whatever requests came before, once a run ends with an update of an
   * existing lead, the lead holds that update's feedback and is marked
   * "Updated"; in particular after N updates it holds the last one's.
   */
  lemma LastUpdateWins(d: Database, i: int, reqs: seq<Request>)
    requires Valid(d) && 0 <= i < |d.leads| && Binds(d.leads[i].id) && |reqs| > 0
    requires reqs[|reqs| - 1].UpdateLead? && reqs[|reqs| - 1].leadId == d.leads[i].id
    ensures Run(d, reqs).leads[i].feedback == reqs[|reqs| - 1].feedback
    ensures Run(d, reqs).leads[i].status == StatusUpdated
  {
    var n := |reqs| - 1;
    assert reqs == reqs[..n] + [reqs[n]];
    RunSnoc(d, reqs[..n], reqs[n]);
    UpdateOnce(Run(d, reqs[..n]), i, reqs[n]);
  }

  /**
   * On a database that keeps the invariant, the feedback a lead is left with
   * after N updates is also the one the last row of its audit trail records.
   */
  lemma RepeatedUpdatesLatest(d: Database, i: int, reqs: seq<Request>)
    requires Consistent(d) && 0 <= i < |d.leads| && Binds(d.leads[i].id) && |reqs| > 0 && UpdatesOf(reqs, d.leads[i].id)
    ensures LatestFeedback(Run(d, reqs).changes, d.leads[i].id) == reqs[|reqs| - 1].feedback
  {
    LastUpdateWins(d, i, reqs);
    RunKeepsConsistent(d, reqs);
    var r := Run(d, reqs);
    assert r.leads[i].id == d.leads[i].id;
  }

  /**
   * Every database the handlers can reach from a new file keeps the
   * audit-trail invariant; once it has tables, its feedback report has
   * exactly one row per change row, each built from that change and the
   * lead it names.
   */
  lemma ReachableConsistent(reqs: seq<Request>)
    ensures Consistent(Run(NoDatabase, reqs))
    ensures var d := Run(NoDatabase, reqs);
      d.hasTables ==>
        && Report(d).Ok? && |Report(d).value| == |d.changes|
        && forall k, j :: 0 <= k < |d.changes| && 0 <= j < |d.leads| && d.leads[j].id == d.changes[k].leadId ==>
             Report(d).value[k] == RowOf(d.leads[j], d.changes[k])
  {
    FreshDatabaseConsistent();
    RunKeepsConsistent(NoDatabase, reqs);
    var d := Run(NoDatabase, reqs);
    if d.hasTables {
      ReportOneToOne(d);
    }
  }
}
