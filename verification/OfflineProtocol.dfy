/** The gate's agent, a link that loses replies, and the server: uploads are retried until they are acknowledged. */
module OfflineProtocol {
  import opened GateSchema
  import opened Options
  import opened GateDecision
  import opened GateInvariants
  import opened GateServing
  import opened GateAgent

  // ---------- the server's side of an upload: router.sync_offline ----------

  /** How handling an event fails, if it does: before its transaction, or after its commit. */
  datatype Fault = NoFault | BeforeCommit | AfterCommit

  /** One uploaded event as the server meets it. */
  datatype Delivery = Delivery(row: Row, request: Request, fault: Fault)

  predicate Carries(d: Delivery) {
    d.request.key == d.row.key && !d.request.dryRun
  }

  function ServeOne(w: World, st: Tables, d: Delivery): (Tables, SyncResult) {
    if d.fault.BeforeCommit? then (st, SyncResult(d.row.event.source, true))
    else
      var (st', response) := Process(w, st, d.request);
      (st', SyncResult(d.row.event.source, d.fault.AfterCommit? || response.Raised?))
  }

  function Serve(w: World, st: Tables, ds: seq<Delivery>): (Tables, seq<SyncResult>) {
    if ds == [] then (st, [])
    else
      var n := |ds| - 1;
      var (st1, results) := Serve(w, st, ds[..n]);
      var (st2, result) := ServeOne(w, st1, ds[n]);
      (st2, results + [result])
  }

  function InsertByCapture(ds: seq<Delivery>, d: Delivery): seq<Delivery> {
    if ds == [] || ds[|ds| - 1].row.event.capturedAt <= d.row.event.capturedAt then ds + [d]
    else InsertByCapture(ds[..|ds| - 1], d) + [ds[|ds| - 1]]
  }

  /** The events in the order of their capture, those of one moment as they came. */
  function ByCapture(ds: seq<Delivery>): seq<Delivery> {
    if ds == [] then [] else InsertByCapture(ByCapture(ds[..|ds| - 1]), ds[|ds| - 1])
  }

  predicate CaptureOrder(ds: seq<Delivery>) {
    forall i, j :: 0 <= i < j < |ds| ==> ds[i].row.event.capturedAt <= ds[j].row.event.capturedAt
  }

  lemma CaptureGrows(ds: seq<Delivery>, d: Delivery)
    ensures CaptureOrder(ds + [d]) <==> CaptureOrder(ds) && forall x :: x in ds ==> x.row.event.capturedAt <= d.row.event.capturedAt
  {
    var r := ds + [d];
    assert r[|ds|] == d && forall i :: 0 <= i < |ds| ==> r[i] == ds[i];
    if CaptureOrder(r) {
      forall i, j | 0 <= i < j < |ds| ensures ds[i].row.event.capturedAt <= ds[j].row.event.capturedAt {
        assert r[i] == ds[i] && r[j] == ds[j];
      }
      forall i | 0 <= i < |ds| ensures ds[i].row.event.capturedAt <= d.row.event.capturedAt {
        assert r[i] == ds[i] && r[|ds|] == d;
      }
    }
  }

  lemma {:induction false} InsertKeepsCapture(ds: seq<Delivery>, d: Delivery)
    requires CaptureOrder(ds)
    ensures CaptureOrder(InsertByCapture(ds, d))
    ensures multiset(InsertByCapture(ds, d)) == multiset(ds) + multiset{d}
  {
    hide CaptureOrder;
    if ds == [] || ds[|ds| - 1].row.event.capturedAt <= d.row.event.capturedAt {
      if ds != [] {
        var n := |ds| - 1;
        assert ds == ds[..n] + [ds[n]];
        CaptureGrows(ds[..n], ds[n]);
      }
      CaptureGrows(ds, d);
    } else {
      var n := |ds| - 1;
      assert ds == ds[..n] + [ds[n]];
      CaptureGrows(ds[..n], ds[n]);
      InsertKeepsCapture(ds[..n], d);
      InsertedAre(InsertByCapture(ds[..n], d), ds[..n], d);
      CaptureGrows(InsertByCapture(ds[..n], d), ds[n]);
    }
  }

  lemma InsertedAre(r: seq<Delivery>, ds: seq<Delivery>, d: Delivery)
    requires multiset(r) == multiset(ds) + multiset{d}
    ensures forall x :: x in r ==> x in ds || x == d
  {
    forall x | x in r ensures x in ds || x == d { assert x in multiset(r); }
  }

  /** Sorting loses and adds nothing. */
  lemma {:induction false} CaptureSorted(ds: seq<Delivery>)
    ensures CaptureOrder(ByCapture(ds)) && multiset(ByCapture(ds)) == multiset(ds)
  {
    if ds != [] {
      var n := |ds| - 1;
      assert ds == ds[..n] + [ds[n]];
      CaptureSorted(ds[..n]);
      InsertKeepsCapture(ByCapture(ds[..n]), ds[n]);
    }
  }

  /** The loop of the sync endpoint: an event that raises becomes an error entry, and the loop goes on. */
  method SyncOffline(service: GateDecisionService, w: World, events: seq<Delivery>) returns (results: seq<SyncResult>)
    modifies service
    ensures (service.Db(), results) == Serve(w, old(service.Db()), ByCapture(events))
  {
    results := [];
    var ds := ByCapture(events);
    for i := 0 to |ds|
      invariant (service.Db(), results) == Serve(w, old(service.Db()), ds[..i])
    {
      assert ds[..i + 1][..i] == ds[..i];
      var failed := ds[i].fault != NoFault;
      if !ds[i].fault.BeforeCommit? {
        var response := service.ProcessPlateEvent(w, ds[i].request);
        failed := failed || response.Raised?;
      }
      results := results + [SyncResult(ds[i].row.event.source, failed)];
    }
    assert ds[..|ds|] == ds;
  }

  // ---------- the protocol ----------

  /** An upload on its way: the rows it read, the results the server has for it so far, whether the reply has arrived,
      and how many of its rows the agent has then gone through. */
  datatype Upload = Upload(batch: seq<Row>, results: seq<SyncResult>, replied: bool, cursor: nat)

  /** Where the outcome of a request goes: nowhere that matters here, or into the results of an upload. */
  datatype Sink = NoSink | ToUpload(upload: nat, source: nat)

  /** A request between its reads and its commit. */
  datatype Handling = Handling(plan: Plan, sink: Sink)

  /** Agent queue, uploads on their way, requests in progress and server tables; and, for the argument only, the events
      decided offline, those answered through the open-session conflict, and how often the tables changed for each key. */
  datatype Protocol = Protocol(queue: seq<Row>, next: nat, uploads: map<nat, Upload>, working: map<nat, Handling>,
                               server: Tables, offline: set<Key>, conflicted: set<Key>, effects: multiset<Key>)

  /** Everything that happens at one moment. A request is read by the server, from this gate or another, and whether its
      answer will arrive or not; so is an event of an upload. A request in progress commits, or is rolled back; an event
      of an upload fails. A reading that got no answer is decided offline and queued. An upload reads its batch; its reply
      arrives; the agent goes through one of its rows; or it is given up. */
  datatype Step =
    | RequestStep(work: nat, request: Request)
    | DeliverStep(id: nat, work: nat, row: Row, request: Request)
    | CommitStep(work: nat)
    | RollbackStep(work: nat)
    | ErrorStep(id: nat, row: Row)
    | OfflineStep(event: SourceEvent, decision: Decision, now: int)
    | BeginStep(id: nat)
    | ReplyStep(id: nat)
    | RemoveStep(id: nat)
    | AbandonStep(id: nat)

  /** The answer of the open-session conflict path: the barrier opens, nothing is recorded. */
  ghost predicate AnsweredByConflict(w: World, st: Tables, r: Request) {
    && Process(w, st, r) == (st, Answer(AllowWithWarning, SessionAlreadyOpen, true, false))
    && FindEvent(st.events, r.key).None?
    && r.plate.Some? && FindOpen(st.sessions, r.plate.value).Some?
  }

  /** The same at the commit of a plan. */
  ghost predicate ConflictAnswered(st: Tables, p: Plan) {
    && Conflict(st, p) && ConflictAnswer(st, p) == Answer(AllowWithWarning, SessionAlreadyOpen, true, false)
    && FindEvent(st.events, p.key).None?
    && p.plate.Some? && FindOpen(st.sessions, p.plate.value).Some?
  }

  /** A result joins its upload, unless that is given up or has its reply. */
  ghost function Report(p: Protocol, sink: Sink, error: bool): Protocol {
    if sink.ToUpload? && sink.upload in p.uploads && !p.uploads[sink.upload].replied then
      var u := p.uploads[sink.upload];
      p.(uploads := p.uploads[sink.upload := u.(results := u.results + [SyncResult(sink.source, error)])])
    else p
  }

  ghost function StartWork(w: World, p: Protocol, work: nat, r: Request, sink: Sink): Protocol {
    match Read(w, p.server, r)
    case Answered(response) => Report(p, sink, response.Raised?)
    case Planned(plan) => p.(working := p.working[work := Handling(plan, sink)])
  }

  ghost function Committed(w: World, p: Protocol, work: nat): Protocol
    requires work in p.working
  {
    var plan := p.working[work].plan;
    var st := Commit(w, p.server, plan).0;
    p.(server := st, working := p.working - {work},
       conflicted := if ConflictAnswered(p.server, plan) then p.conflicted + {plan.key} else p.conflicted,
       effects := if st != p.server then p.effects + multiset{plan.key} else p.effects)
  }

  ghost function RemoveRow(p: Protocol, id: nat): Protocol
    requires id in p.uploads && p.uploads[id].cursor < |p.uploads[id].batch|
  {
    var u := p.uploads[id];
    var row := u.batch[u.cursor];
    p.(queue := if Acknowledged(row, u.results) then Remove(p.queue, row.id) else p.queue,
       uploads := p.uploads[id := u.(cursor := u.cursor + 1)])
  }

  /** Deliveries carry a row of their upload under its key; removals begin with the reply. */
  ghost predicate Enabled(p: Protocol, step: Step) {
    match step
    case RequestStep(work, r) => work !in p.working
    case DeliverStep(id, work, row, r) =>
      work !in p.working && id in p.uploads && row in p.uploads[id].batch && r.key == row.key && !r.dryRun
    case CommitStep(work) => work in p.working
    case RollbackStep(work) => work in p.working
    case BeginStep(id) => id !in p.uploads
    case ReplyStep(id) => id in p.uploads
    case RemoveStep(id) => id in p.uploads && p.uploads[id].replied && p.uploads[id].cursor < |p.uploads[id].batch|
    case _ => true
  }

  ghost function Next(w: World, gate: GateId, p: Protocol, step: Step): Protocol {
    if !Enabled(p, step) then p
    else
      match step
      case RequestStep(work, r) => StartWork(w, p, work, r, NoSink)
      case DeliverStep(id, work, row, r) => StartWork(w, p, work, r, ToUpload(id, row.event.source))
      case CommitStep(work) =>
        Report(Committed(w, p, work), p.working[work].sink, Commit(w, p.server, p.working[work].plan).1.Raised?)
      case RollbackStep(work) => Report(p.(working := p.working - {work}), p.working[work].sink, true)
      case ErrorStep(id, row) => Report(p, ToUpload(id, row.event.source), true)
      case OfflineStep(event, decision, now) =>
        var key := Key(gate, event.source);
        p.(queue := Enqueue(p.queue, Row(p.next, key, event, decision, now)),
           next := if HasKey(p.queue, key) then p.next else p.next + 1,
           offline := p.offline + {key})
      case BeginStep(id) => p.(uploads := p.uploads[id := Upload(Batch(p.queue), [], false, 0)])
      case ReplyStep(id) => p.(uploads := p.uploads[id := p.uploads[id].(replied := true)])
      case RemoveStep(id) => RemoveRow(p, id)
      case AbandonStep(id) => p.(uploads := p.uploads - {id})
  }

  ghost function Steps(w: World, gate: GateId, p: Protocol, steps: seq<Step>): Protocol {
    if steps == [] then p else Next(w, gate, Steps(w, gate, p, steps[..|steps| - 1]), steps[|steps| - 1])
  }

  // ---------- the invariant ----------

  ghost predicate Recorded(st: Tables, key: Key) {
    FindEvent(st.events, key).Some?
  }

  ghost predicate Settled(p: Protocol, key: Key) {
    Recorded(p.server, key) || key in p.conflicted
  }

  /** What every upload on its way relies on: results without an error are settled, and the rows it read are rows of the
      queue or no more, of which those it has acknowledged and gone through are in the queue no more. */
  ghost predicate UploadKept(gate: GateId, p: Protocol, u: Upload) {
    && ResultsSettled(gate, p, u.results)
    && (forall row :: row in u.batch ==> OldRow(gate, p, row))
    && u.cursor <= |u.batch| && (!u.replied ==> u.cursor == 0)
    && (forall j :: 0 <= j < u.cursor && Acknowledged(u.batch[j], u.results) ==> Gone(p, u.batch[j].id))
  }

  ghost predicate ResultsSettled(gate: GateId, p: Protocol, results: seq<SyncResult>) {
    forall i :: 0 <= i < |results| && !results[i].error ==> Settled(p, Key(gate, results[i].source))
  }

  ghost predicate OldRow(gate: GateId, p: Protocol, row: Row) {
    && row.id < p.next && row.key == Key(gate, row.event.source)
    && forall x :: x in p.queue && x.id == row.id ==> x == row
  }

  ghost predicate Gone(p: Protocol, id: nat) {
    forall x :: x in p.queue ==> x.id != id
  }

  /** Nothing decided offline is lost, and nothing is applied twice. */
  ghost predicate Kept(gate: GateId, p: Protocol) {
    QueueKept(gate, p) && OfflineKept(p) && AppliedOnce(p) && UploadsKept(gate, p) && WorkKept(gate, p)
  }

  ghost predicate QueueKept(gate: GateId, p: Protocol) {
    WellQueued(p.queue, p.next) && forall x :: x in p.queue ==> x.key == Key(gate, x.event.source)
  }

  ghost predicate OfflineKept(p: Protocol) {
    forall key :: key in p.offline ==> Queued(p.queue, key) || Settled(p, key)
  }

  ghost predicate AppliedOnce(p: Protocol) {
    && UniqueKeys(p.server)
    && forall key :: p.effects[key] <= (if Recorded(p.server, key) then 1 else 0)
  }

  ghost predicate UploadsKept(gate: GateId, p: Protocol) {
    forall id :: id in p.uploads ==> UploadKept(gate, p, p.uploads[id])
  }

  /** A request in progress for an upload works under the key of its event. */
  ghost predicate WorkKept(gate: GateId, p: Protocol) {
    forall work :: work in p.working && p.working[work].sink.ToUpload? ==>
      p.working[work].plan.key == Key(gate, p.working[work].sink.source)
  }

  lemma RecordedStays(st: Tables, st': Tables, key: Key)
    requires |st.events| <= |st'.events| && st'.events[..|st.events|] == st.events && Recorded(st, key)
    ensures Recorded(st', key)
  {
    var i :| 0 <= i < |st.events| && st.events[i].key == key;
    assert st'.events[i] == st.events[i];
  }

  /** One request at the server: its key is recorded, or it is an error, or it met the open-session conflict. */
  lemma {:induction false} ServerSettles(w: World, st: Tables, r: Request)
    requires !r.dryRun
    ensures
      var (st', response) := Process(w, st, r);
      response.Answer? ==> Recorded(st', r.key) || AnsweredByConflict(w, st, r)
  {
    hide MakePlan, FindOpen;
    PlanIs(w, st, r);
    var reading := Read(w, st, r);
    if reading.Planned? {
      if Conflict(st, reading.plan) {
        OnlySoftenedConflicts(w, st, r);
        ConflictHasSession(w, st, r);
      } else {
        var st' := Process(w, st, r).0;
        assert st'.events == st.events + [EventOf(reading.plan)];
        assert st'.events[|st.events|].key == r.key;
      }
    }
  }

  lemma ConflictHasSession(w: World, st: Tables, r: Request)
    requires FindEvent(st.events, r.key).None? && Conflict(st, MakePlan(w, st, r))
    ensures r.plate.Some? && FindOpen(st.sessions, r.plate.value).Some?
  {
    hide FindOpen;
    OnlySoftenedConflicts(w, st, r);
  }

  lemma NewEventRecorded(st: Tables, st': Tables, key: Key)
    requires |st'.events| == |st.events| + 1 && st'.events[..|st.events|] == st.events
    requires st'.events[|st.events|].key == key && FindEvent(st.events, key).None? && UniqueKeys(st)
    ensures Recorded(st', key) && UniqueKeys(st')
  {
    assert forall i :: 0 <= i < |st.events| ==> st'.events[i] == st.events[i];
  }

  // ---------- what the server does ----------

  /** A commit changes the tables only together with a new event under its own, unused key. */
  lemma CommitOnce(w: World, st: Tables, p: Plan)
    ensures
      var st' := Commit(w, st, p).0;
      st' == st || (st'.events == st.events + [EventOf(p)] && FindEvent(st.events, p.key).None?)
  {
    hide FindEvent, FindOpen, Vacate, Enter, EventOf;
    if !Conflict(st, p) {
      CommitRecords(w, st, p);
    }
  }

  /** A commit that is answered has its event recorded, or met the open-session conflict. */
  lemma CommitSettles(w: World, st: Tables, p: Plan)
    ensures
      var (st', response) := Commit(w, st, p);
      response.Answer? ==> Recorded(st', p.key) || ConflictAnswered(st, p)
  {
    hide FindOpen, Vacate, Enter;
    var st' := Commit(w, st, p).0;
    if !Conflict(st, p) {
      CommitRecords(w, st, p);
      assert st'.events[|st.events|].key == p.key;
    }
  }

  lemma CommitRecords(w: World, st: Tables, p: Plan)
    requires !Conflict(st, p)
    ensures Commit(w, st, p).0.events == st.events + [EventOf(p)]
  {
    hide FindEvent, FindOpen, Vacate, Enter;
    var st1 := GateDecision.Recorded(st, p);
    if EntersNew(p) {
      EnterEvents(w, st1, p, |st.events|);
    } else if Leaves(p) {
      VacateSessions(st1, p.vehicle.value);
    }
  }

  /** A request that the reads alone answer, and that is no dry run, has its event recorded. */
  lemma ReadSettles(w: World, st: Tables, r: Request)
    requires !r.dryRun
    ensures
      var reading := Read(w, st, r);
      && (reading.Answered? && reading.response.Answer? ==> Recorded(st, r.key))
      && (reading.Planned? ==> reading.plan.key == r.key)
  {
    hide MakePlan, FindEvent;
    PlanIs(w, st, r);
  }

  /** What was settled stays settled, and a key's tables change at most once. */
  lemma CommitKeeps(w: World, p: Protocol, work: nat)
    requires AppliedOnce(p) && work in p.working
    ensures
      var q, plan := Committed(w, p, work), p.working[work].plan;
      && AppliedOnce(q) && (forall key :: Settled(p, key) ==> Settled(q, key))
      && (Commit(w, p.server, plan).1.Answer? ==> Settled(q, plan.key))
  {
    hide Commit, FindEvent, ConflictAnswered;
    var q, plan := Committed(w, p, work), p.working[work].plan;
    CommitOnce(w, p.server, plan);
    CommitSettles(w, p.server, plan);
    if q.server != p.server {
      assert q.server.events[..|p.server.events|] == p.server.events;
      NewEventRecorded(p.server, q.server, plan.key);
    }
    forall key | Recorded(p.server, key) ensures Recorded(q.server, key) {
      if q.server != p.server { RecordedStays(p.server, q.server, key); }
    }
  }

  lemma {:induction false} InfoIsAResult(results: seq<SyncResult>, source: nat)
    ensures
      var info := InfoFor(results, source);
      info.Some? ==> info.value.source == source && info.value in results
  {
    if results != [] { InfoIsAResult(results[..|results| - 1], source); }
  }

  lemma {:induction false} InfoIsFound(results: seq<SyncResult>, i: nat)
    requires i < |results|
    ensures InfoFor(results, results[i].source).Some?
  {
    if i < |results| - 1 {
      InfoIsFound(results[..|results| - 1], i);
      assert results[..|results| - 1][i] == results[i];
    }
  }

  lemma EnqueueMembers(q: seq<Row>, row: Row, x: Row)
    ensures x in q ==> x in Enqueue(q, row)
    ensures Queued(Enqueue(q, row), row.key)
    ensures x in Enqueue(q, row) ==> x in q || x == row
  {
    InsertMembers(q, row, x);
    InsertMembers(q, row, row);
    if !HasKey(q, row.key) {
      var r := InsertByTime(q, row);
      var i :| 0 <= i < |r| && r[i] == row;
    }
  }

  // ---------- every step keeps the invariant ----------

  /** Nothing is unsettled, no row number is used again, and new rows of the queue have new numbers. */
  ghost predicate Onward(p: Protocol, q: Protocol) {
    && p.next <= q.next
    && (forall key :: Settled(p, key) ==> Settled(q, key))
    && (forall x :: x in q.queue ==> x in p.queue || x.id >= p.next)
  }

  lemma UploadCarries(gate: GateId, p: Protocol, q: Protocol, u: Upload)
    requires UploadKept(gate, p, u) && Onward(p, q)
    ensures UploadKept(gate, q, u)
  {
    hide Settled, Acknowledged;
    forall row | row in u.batch ensures OldRow(gate, q, row) { assert OldRow(gate, p, row); }
    forall j | 0 <= j < u.cursor && Acknowledged(u.batch[j], u.results) ensures Gone(q, u.batch[j].id) {
      assert Gone(p, u.batch[j].id) && OldRow(gate, p, u.batch[j]);
    }
  }

  lemma UploadsCarry(gate: GateId, p: Protocol, q: Protocol)
    requires UploadsKept(gate, p) && Onward(p, q) && q.uploads == p.uploads
    ensures UploadsKept(gate, q)
  {
    hide UploadKept, Onward;
    forall id | id in q.uploads ensures UploadKept(gate, q, q.uploads[id]) { UploadCarries(gate, p, q, p.uploads[id]); }
  }

  lemma SettledIs(p: Protocol, q: Protocol)
    requires q.server == p.server && q.conflicted == p.conflicted
    ensures forall key :: Settled(q, key) == Settled(p, key)
    ensures q.effects == p.effects ==> AppliedOnce(q) == AppliedOnce(p)
  {
  }

  /** Reporting keeps the invariant, if a result without an error is settled. */
  lemma ReportKeeps(gate: GateId, p: Protocol, sink: Sink, error: bool)
    requires Kept(gate, p) && (sink.ToUpload? && !error ==> Settled(p, Key(gate, sink.source)))
    ensures Kept(gate, Report(p, sink, error))
  {
    hide Settled, AppliedOnce, UploadKept, WellQueued, Queued;
    var q := Report(p, sink, error);
    SettledIs(p, q);
    forall i | i in q.uploads ensures UploadKept(gate, q, q.uploads[i]) {
      UploadCarries(gate, p, q, p.uploads[i]);
      if q.uploads[i] != p.uploads[i] { ResultJoins(gate, q, p.uploads[i], SyncResult(sink.source, error)); }
    }
  }

  lemma ResultJoins(gate: GateId, p: Protocol, u: Upload, result: SyncResult)
    requires UploadKept(gate, p, u) && !u.replied && (!result.error ==> Settled(p, Key(gate, result.source)))
    ensures UploadKept(gate, p, u.(results := u.results + [result]))
  {
    hide Settled, Acknowledged, OldRow;
  }

  lemma WorkChanges(gate: GateId, p: Protocol, q: Protocol)
    requires Kept(gate, p) && q == p.(working := q.working) && WorkKept(gate, q)
    ensures Kept(gate, q)
  {
    hide Settled, AppliedOnce, UploadsKept, WellQueued, Queued;
    SettledIs(p, q);
    UploadsCarry(gate, p, q);
  }

  lemma StartKeeps(w: World, gate: GateId, p: Protocol, work: nat, r: Request, sink: Sink)
    requires Kept(gate, p) && work !in p.working
    requires sink.ToUpload? ==> !r.dryRun && r.key == Key(gate, sink.source)
    ensures Kept(gate, StartWork(w, p, work, r, sink))
  {
    hide Kept, Recorded, Read, UploadKept;
    if sink.ToUpload? { ReadSettles(w, p.server, r); }
    match Read(w, p.server, r)
    case Answered(response) => ReportKeeps(gate, p, sink, response.Raised?);
    case Planned(plan) =>
      WorkOf(gate, p);
      WorkChanges(gate, p, p.(working := p.working[work := Handling(plan, sink)]));
  }

  lemma WorkOf(gate: GateId, p: Protocol)
    requires Kept(gate, p)
    ensures WorkKept(gate, p)
  {
  }

  lemma DeliverKeeps(w: World, gate: GateId, p: Protocol, id: nat, work: nat, row: Row, r: Request)
    requires Kept(gate, p) && Enabled(p, DeliverStep(id, work, row, r))
    ensures Kept(gate, Next(w, gate, p, DeliverStep(id, work, row, r)))
  {
    hide AppliedOnce, Settled, WellQueued, StartWork;
    assert UploadKept(gate, p, p.uploads[id]) && OldRow(gate, p, row);
    StartKeeps(w, gate, p, work, r, ToUpload(id, row.event.source));
  }

  lemma CommitStepKeeps(w: World, gate: GateId, p: Protocol, work: nat)
    requires Kept(gate, p) && work in p.working
    ensures Kept(gate, Next(w, gate, p, CommitStep(work)))
  {
    hide Settled, AppliedOnce, UploadKept, WellQueued, Queued, Commit, ConflictAnswered, Report;
    var q := Committed(w, p, work);
    CommitKeeps(w, p, work);
    forall i | i in q.uploads ensures UploadKept(gate, q, q.uploads[i]) { UploadCarries(gate, p, q, p.uploads[i]); }
    ReportKeeps(gate, q, p.working[work].sink, Commit(w, p.server, p.working[work].plan).1.Raised?);
  }

  lemma RollbackKeeps(w: World, gate: GateId, p: Protocol, work: nat)
    requires Kept(gate, p) && work in p.working
    ensures Kept(gate, Next(w, gate, p, RollbackStep(work)))
  {
    hide Kept, Report;
    WorkOf(gate, p);
    var q := p.(working := p.working - {work});
    WorkChanges(gate, p, q);
    ReportKeeps(gate, q, p.working[work].sink, true);
  }

  lemma OfflineKeeps(w: World, gate: GateId, p: Protocol, event: SourceEvent, decision: Decision, now: int)
    requires Kept(gate, p)
    ensures Kept(gate, Next(w, gate, p, OfflineStep(event, decision, now)))
  {
    hide Settled, AppliedOnce, UploadsKept, WellQueued, Enqueue, HasKey, Queued;
    var q := Next(w, gate, p, OfflineStep(event, decision, now));
    var row := Row(p.next, Key(gate, event.source), event, decision, now);
    SettledIs(p, q);
    EnqueueKeeps(p.queue, row, p.next);
    forall x ensures x in q.queue ==> x in p.queue || x == row { EnqueueMembers(p.queue, row, x); }
    UploadsCarry(gate, p, q);
    forall key | key in q.offline ensures Queued(q.queue, key) || Settled(q, key) {
      EnqueueMembers(p.queue, row, row);
      if Queued(p.queue, key) { StillQueued(p.queue, row, key); }
    }
  }

  lemma EnqueueKeeps(q: seq<Row>, row: Row, next: nat)
    requires WellQueued(q, next) && row.id == next
    ensures WellQueued(Enqueue(q, row), if HasKey(q, row.key) then next else next + 1)
  {
    hide WellQueued;
    if !HasKey(q, row.key) { InsertWellQueued(q, row, next); }
  }

  lemma StillQueued(q: seq<Row>, row: Row, key: Key)
    requires Queued(q, key)
    ensures Queued(Enqueue(q, row), key)
  {
    hide Enqueue;
    var i :| 0 <= i < |q| && q[i].key == key;
    EnqueueMembers(q, row, q[i]);
  }

  lemma BeginKeeps(w: World, gate: GateId, p: Protocol, id: nat)
    requires Kept(gate, p) && id !in p.uploads
    ensures Kept(gate, Next(w, gate, p, BeginStep(id)))
  {
    hide Settled, AppliedOnce, UploadKept, Queued;
    var q := Next(w, gate, p, BeginStep(id));
    SettledIs(p, q);
    forall i | i in q.uploads ensures UploadKept(gate, q, q.uploads[i]) {
      if i == id { FreshUpload(gate, q); } else { UploadCarries(gate, p, q, p.uploads[i]); }
    }
  }

  lemma FreshUpload(gate: GateId, p: Protocol)
    requires QueueKept(gate, p)
    ensures UploadKept(gate, p, Upload(Batch(p.queue), [], false, 0))
  {
    forall row | row in Batch(p.queue) ensures OldRow(gate, p, row) {
      assert row in p.queue;
    }
  }

  lemma ReplyKeeps(w: World, gate: GateId, p: Protocol, id: nat)
    requires Kept(gate, p) && id in p.uploads
    ensures Kept(gate, Next(w, gate, p, ReplyStep(id)))
  {
    hide Settled, AppliedOnce, Acknowledged, WellQueued, Queued;
    var q := Next(w, gate, p, ReplyStep(id));
    SettledIs(p, q);
    forall i | i in q.uploads ensures UploadKept(gate, q, q.uploads[i]) { UploadCarries(gate, p, q, p.uploads[i]); }
  }

  /** A row that a result acknowledges is settled, in any upload on its way. */
  lemma AcknowledgedIsSettled(gate: GateId, p: Protocol, id: nat, row: Row)
    requires Kept(gate, p) && id in p.uploads && row in p.uploads[id].batch && Acknowledged(row, p.uploads[id].results)
    ensures Settled(p, row.key)
  {
    hide Settled, AppliedOnce;
    var u := p.uploads[id];
    assert UploadKept(gate, p, u) && OldRow(gate, p, row);
    InfoIsAResult(u.results, row.event.source);
    var i :| 0 <= i < |u.results| && u.results[i] == InfoFor(u.results, row.event.source).value;
  }

  lemma RemoveKeeps(w: World, gate: GateId, p: Protocol, id: nat)
    requires Kept(gate, p) && Enabled(p, RemoveStep(id))
    ensures Kept(gate, RemoveRow(p, id))
  {
    hide Settled, AppliedOnce, UploadKept, WellQueued, Acknowledged, Remove, Queued;
    var u := p.uploads[id];
    var row := u.batch[u.cursor];
    var q := RemoveRow(p, id);
    SettledIs(p, q);
    if Acknowledged(row, u.results) { RemoveWellQueued(p.queue, row.id, p.next); }
    forall x ensures x in q.queue <==> x in p.queue && (Acknowledged(row, u.results) ==> x.id != row.id) {
      RemoveMembers(p.queue, row.id, x);
    }
    forall i | i in q.uploads ensures UploadKept(gate, q, q.uploads[i]) {
      UploadCarries(gate, p, q, p.uploads[i]);
      if i == id { CursorMoves(gate, q, u); }
    }
    forall key | key in q.offline ensures Queued(q.queue, key) || Settled(q, key) {
      if Acknowledged(row, u.results) && Queued(p.queue, key) { QueuedOrRemoved(gate, p, q, id, key); }
    }
  }

  lemma CursorMoves(gate: GateId, q: Protocol, u: Upload)
    requires UploadKept(gate, q, u) && u.replied && u.cursor < |u.batch|
    requires Acknowledged(u.batch[u.cursor], u.results) ==> Gone(q, u.batch[u.cursor].id)
    ensures UploadKept(gate, q, u.(cursor := u.cursor + 1))
  {
    hide Acknowledged, OldRow, Gone, ResultsSettled;
  }

  lemma QueuedOrRemoved(gate: GateId, p: Protocol, q: Protocol, id: nat, key: Key)
    requires Kept(gate, p) && Enabled(p, RemoveStep(id)) && Queued(p.queue, key)
    requires
      var row := p.uploads[id].batch[p.uploads[id].cursor];
      Acknowledged(row, p.uploads[id].results) && forall x :: x in q.queue <==> x in p.queue && x.id != row.id
    ensures Queued(q.queue, key) || Settled(p, key)
  {
    hide Settled, AppliedOnce, WellQueued, Acknowledged;
    var u := p.uploads[id];
    var row := u.batch[u.cursor];
    var i :| 0 <= i < |p.queue| && p.queue[i].key == key;
    if p.queue[i].id == row.id {
      assert UploadKept(gate, p, u) && OldRow(gate, p, row);
      AcknowledgedIsSettled(gate, p, id, row);
    } else {
      assert p.queue[i] in q.queue;
    }
  }

  lemma AbandonKeeps(w: World, gate: GateId, p: Protocol, id: nat)
    requires Kept(gate, p)
    ensures Kept(gate, Next(w, gate, p, AbandonStep(id)))
  {
    hide Settled, AppliedOnce, UploadKept, WellQueued, Queued;
    var q := Next(w, gate, p, AbandonStep(id));
    SettledIs(p, q);
    forall i | i in q.uploads ensures UploadKept(gate, q, q.uploads[i]) { UploadCarries(gate, p, q, p.uploads[i]); }
  }

  /** Every step keeps the protocol's promise. */
  lemma NextKeeps(w: World, gate: GateId, p: Protocol, step: Step)
    requires Kept(gate, p)
    ensures Kept(gate, Next(w, gate, p, step))
  {
    hide Kept, StartWork, Committed, RemoveRow, Report, Commit;
    if Enabled(p, step) {
      match step
      case RequestStep(work, r) => StartKeeps(w, gate, p, work, r, NoSink);
      case DeliverStep(id, work, row, r) => DeliverKeeps(w, gate, p, id, work, row, r);
      case CommitStep(work) => CommitStepKeeps(w, gate, p, work);
      case RollbackStep(work) => RollbackKeeps(w, gate, p, work);
      case ErrorStep(id, row) => ReportKeeps(gate, p, ToUpload(id, row.event.source), true);
      case OfflineStep(event, decision, now) => OfflineKeeps(w, gate, p, event, decision, now);
      case BeginStep(id) => BeginKeeps(w, gate, p, id);
      case ReplyStep(id) => ReplyKeeps(w, gate, p, id);
      case RemoveStep(id) => RemoveKeeps(w, gate, p, id);
      case AbandonStep(id) => AbandonKeeps(w, gate, p, id);
    }
  }

  lemma ReportQueue(p: Protocol, sink: Sink, error: bool)
    ensures
      var q := Report(p, sink, error);
      q == p.(uploads := q.uploads)
  {
  }

  lemma StartQueue(w: World, p: Protocol, work: nat, r: Request, sink: Sink)
    ensures StartWork(w, p, work, r, sink).queue == p.queue
  {
    hide Read;
  }

  /** A row leaves the queue only when the agent goes through the reply of an upload that acknowledges it, and then its
      event is recorded under its key or was answered through the open-session conflict. */
  lemma RemovedOnlySettled(w: World, gate: GateId, p: Protocol, step: Step, row: Row)
    requires Kept(gate, p) && row in p.queue && row !in Next(w, gate, p, step).queue
    ensures step.RemoveStep? && Enabled(p, step) && p.uploads[step.id].replied
    ensures row in p.uploads[step.id].batch && Acknowledged(row, p.uploads[step.id].results)
    ensures Settled(p, row.key) && Settled(Next(w, gate, p, step), row.key)
  {
    hide Settled, AppliedOnce, WellQueued, Acknowledged, Report, StartWork, Commit;
    match step
    case OfflineStep(event, decision, now) =>
      EnqueueMembers(p.queue, Row(p.next, Key(gate, event.source), event, decision, now), row);
    case RemoveStep(id) =>
      if Enabled(p, step) {
        var u := p.uploads[id];
        var r := u.batch[u.cursor];
        RemoveMembers(p.queue, r.id, row);
        assert UploadKept(gate, p, u) && OldRow(gate, p, r);
        AcknowledgedIsSettled(gate, p, id, row);
        SettledIs(p, Next(w, gate, p, step));
      }
    case RequestStep(work, r) => StartQueue(w, p, work, r, NoSink);
    case DeliverStep(id, work, x, r) => StartQueue(w, p, work, r, ToUpload(id, x.event.source));
    case CommitStep(work) =>
      if work in p.working {
        ReportQueue(Committed(w, p, work), p.working[work].sink, Commit(w, p.server, p.working[work].plan).1.Raised?);
      }
    case RollbackStep(work) =>
      if work in p.working { ReportQueue(p.(working := p.working - {work}), p.working[work].sink, true); }
    case ErrorStep(id, x) => ReportQueue(p, ToUpload(id, x.event.source), true);
    case _ =>
  }

  /** Any interleaving of readings, lost replies, uploads in parts, per-event errors and other traffic keeps it. */
  lemma {:induction false} StepsKeep(w: World, gate: GateId, p: Protocol, steps: seq<Step>)
    requires Kept(gate, p)
    ensures Kept(gate, Steps(w, gate, p, steps))
  {
    hide Kept, Next;
    if steps != [] {
      StepsKeep(w, gate, p, steps[..|steps| - 1]);
      NextKeeps(w, gate, Steps(w, gate, p, steps[..|steps| - 1]), steps[|steps| - 1]);
    }
  }

  function Start(st: Tables): Protocol {
    Protocol([], 0, map[], map[], st, {}, {}, multiset{})
  }

  /** From an empty queue: at most one event and one change of the tables per key, and every event decided
      offline is still queued, or recorded, or was answered while its plate had an open session. */
  lemma OfflineProtocolSafe(w: World, gate: GateId, st: Tables, steps: seq<Step>, key: Key, i: nat, j: nat)
    requires UniqueKeys(st)
    ensures
      var p := Steps(w, gate, Start(st), steps);
      && (i < j < |p.server.events| ==> p.server.events[i].key != p.server.events[j].key)
      && p.effects[key] <= 1
      && (key in p.offline ==>
            Queued(p.queue, key) || FindEvent(p.server.events, key).Some? || key in p.conflicted)
  {
    StepsKeep(w, gate, Start(st), steps);
  }

  // ---------- progress ----------

  /** Whatever else happens meanwhile: once the agent has gone through the reply of an upload that has a result for each
      of its rows and no error, none of them is in the queue any more, and all of them are settled. */
  lemma HealthySyncDrains(gate: GateId, p: Protocol, id: nat, row: Row)
    requires Kept(gate, p) && id in p.uploads && row in p.uploads[id].batch
    requires p.uploads[id].cursor == |p.uploads[id].batch|
    requires exists i :: 0 <= i < |p.uploads[id].results| && p.uploads[id].results[i].source == row.event.source
    requires forall result :: result in p.uploads[id].results ==> !result.error
    ensures row !in p.queue && Settled(p, row.key)
  {
    hide Settled, AppliedOnce, WellQueued;
    var u := p.uploads[id];
    var i :| 0 <= i < |u.results| && u.results[i].source == row.event.source;
    InfoIsFound(u.results, i);
    InfoIsAResult(u.results, row.event.source);
    AcknowledgedIsSettled(gate, p, id, row);
    assert UploadKept(gate, p, u);
    var j :| 0 <= j < |u.batch| && u.batch[j] == row;
    assert Gone(p, u.batch[j].id);
  }

  // ---------- an upload in one go is the methods' upload ----------

  lemma {:induction false} StepsJoin(w: World, gate: GateId, p: Protocol, a: seq<Step>, b: seq<Step>)
    ensures Steps(w, gate, p, a + b) == Steps(w, gate, Steps(w, gate, p, a), b)
  {
    hide Next;
    if b == [] {
      assert a + b == a;
    } else {
      var n := |b| - 1;
      assert (a + b)[..|a + b| - 1] == a + b[..n];
      StepsJoin(w, gate, p, a, b[..n]);
    }
  }

  /** What happens to one event of an upload when nothing comes in between. */
  function EventSteps(id: nat, work: nat, d: Delivery): seq<Step> {
    match d.fault
    case NoFault => [DeliverStep(id, work, d.row, d.request), CommitStep(work)]
    case BeforeCommit => [ErrorStep(id, d.row)]
    case AfterCommit => [RequestStep(work, d.request), CommitStep(work), ErrorStep(id, d.row)]
  }

  function Deliveries(id: nat, work: nat, ds: seq<Delivery>): seq<Step> {
    if ds == [] then [] else Deliveries(id, work, ds[..|ds| - 1]) + EventSteps(id, work, ds[|ds| - 1])
  }

  function Removals(id: nat, n: nat): seq<Step> {
    seq(n, i => RemoveStep(id))
  }

  /** An upload that the server is at, with no request in progress under the given number. */
  ghost predicate At(p: Protocol, id: nat, work: nat) {
    id in p.uploads && !p.uploads[id].replied && work !in p.working
  }

  lemma TwoSteps(w: World, gate: GateId, p: Protocol, a: Step, b: Step)
    ensures Steps(w, gate, p, [a, b]) == Next(w, gate, Next(w, gate, p, a), b)
  {
    hide Next;
    assert [a, b][..1] == [a] && [a][..0] == [];
    assert Steps(w, gate, p, []) == p;
    assert Steps(w, gate, p, [a]) == Next(w, gate, p, a);
  }

  /** A request read and committed at once leaves the tables as the whole request does. */
  lemma AtOnce(w: World, gate: GateId, p: Protocol, work: nat, r: Request, sink: Sink)
    requires work !in p.working
    ensures
      var q := Next(w, gate, StartWork(w, p, work, r, sink), CommitStep(work));
      && q.server == Process(w, p.server, r).0
      && q.uploads == Report(p, sink, Process(w, p.server, r).1.Raised?).uploads
      && q.working == p.working && q.queue == p.queue
  {
    hide Read, Commit, ConflictAnswered;
    var m := StartWork(w, p, work, r, sink);
    if Read(w, p.server, r).Planned? { assert m.working - {work} == p.working; }
  }

  lemma EventServed(w: World, gate: GateId, p: Protocol, id: nat, work: nat, d: Delivery)
    requires At(p, id, work) && Carries(d) && d.row in p.uploads[id].batch
    ensures
      var q := Steps(w, gate, p, EventSteps(id, work, d));
      var (st, result) := ServeOne(w, p.server, d);
      && At(q, id, work) && q.server == st && q.queue == p.queue
      && q.uploads[id] == p.uploads[id].(results := p.uploads[id].results + [result])
  {
    hide Process, StartWork, Commit, Committed;
    match d.fault
    case NoFault =>
      TwoSteps(w, gate, p, DeliverStep(id, work, d.row, d.request), CommitStep(work));
      AtOnce(w, gate, p, work, d.request, ToUpload(id, d.row.event.source));
    case BeforeCommit =>
      assert [ErrorStep(id, d.row)][..0] == [];
    case AfterCommit =>
      var first := [RequestStep(work, d.request), CommitStep(work)];
      assert EventSteps(id, work, d)[..2] == first;
      TwoSteps(w, gate, p, RequestStep(work, d.request), CommitStep(work));
      AtOnce(w, gate, p, work, d.request, NoSink);
  }

  /** Handling the events of an upload one after the other is what the endpoint's loop does. */
  lemma {:induction false} DeliveriesServe(w: World, gate: GateId, p: Protocol, id: nat, work: nat, ds: seq<Delivery>)
    requires At(p, id, work) && p.uploads[id].results == []
    requires forall i :: 0 <= i < |ds| ==> Carries(ds[i]) && ds[i].row in p.uploads[id].batch
    ensures
      var q := Steps(w, gate, p, Deliveries(id, work, ds));
      && At(q, id, work) && (q.server, q.uploads[id].results) == Serve(w, p.server, ds)
      && q.uploads[id] == p.uploads[id].(results := q.uploads[id].results) && q.queue == p.queue
  {
    hide EventSteps, ServeOne, Next;
    if ds == [] {
      assert Steps(w, gate, p, []) == p;
    } else {
      var n := |ds| - 1;
      DeliveriesServe(w, gate, p, id, work, ds[..n]);
      StepsJoin(w, gate, p, Deliveries(id, work, ds[..n]), EventSteps(id, work, ds[n]));
      EventServed(w, gate, Steps(w, gate, p, Deliveries(id, work, ds[..n])), id, work, ds[n]);
    }
  }

  /** Going through the rows of a reply is what the agent's loop does. */
  lemma {:induction false} RemovalsAcknowledge(w: World, gate: GateId, p: Protocol, id: nat, n: nat)
    requires id in p.uploads && p.uploads[id].replied && p.uploads[id].cursor == 0 && n <= |p.uploads[id].batch|
    ensures
      var q := Steps(w, gate, p, Removals(id, n));
      var u := p.uploads[id];
      id in q.uploads && q.uploads[id] == u.(cursor := n) && q.queue == Acknowledge(p.queue, u.batch[..n], u.results)
      && q.server == p.server
  {
    hide Acknowledged, Remove;
    if n > 0 {
      assert Removals(id, n)[..n - 1] == Removals(id, n - 1);
      RemovalsAcknowledge(w, gate, p, id, n - 1);
      var u := p.uploads[id];
      assert u.batch[..n][..n - 1] == u.batch[..n - 1];
    }
  }
}
