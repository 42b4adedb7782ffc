/** The gate agent's local database, its handler and its upload (`gate-agent/agent`). */
module GateAgent {
  import opened GateSchema
  import opened Options
  import opened OfflineSnapshot

  /** A reading at the gate; its raw text stands in for an unreadable plate in the log. */
  datatype SourceEvent = SourceEvent(source: nat, plate: Option<Plate>, rawText: Plate, direction: Direction, capturedAt: int)

  datatype Row = Row(id: nat, key: Key, event: SourceEvent, clientDecision: Decision, createdAt: int)

  datatype LogEntry = LogEntry(plate: Plate, decision: Decision, direction: Direction, online: bool)

  // ---------- the queue as a value ----------

  ghost predicate Queued(q: seq<Row>, key: Key) {
    exists i :: 0 <= i < |q| && q[i].key == key
  }

  predicate HasKey(q: seq<Row>, key: Key)
    ensures HasKey(q, key) <==> Queued(q, key)
  {
    if q == [] then false else
    var found := q[|q| - 1].key == key || HasKey(q[..|q| - 1], key);
    assert Queued(q[..|q| - 1], key) ==> Queued(q, key);
    found
  }

  /** INSERT OR IGNORE: a key already queued is left alone; the table is kept in the order it is read in. */
  function Enqueue(q: seq<Row>, row: Row): seq<Row> {
    if HasKey(q, row.key) then q else InsertByTime(q, row)
  }

  function InsertByTime(q: seq<Row>, row: Row): (r: seq<Row>)
    ensures |r| == |q| + 1
  {
    if q == [] || q[|q| - 1].createdAt <= row.createdAt then q + [row]
    else
      var n := |q| - 1;
      InsertByTime(q[..n], row) + [q[n]]
  }

  function Remove(q: seq<Row>, id: nat): seq<Row> {
    if q == [] then []
    else
      var n := |q| - 1;
      Remove(q[..n], id) + (if q[n].id == id then [] else [q[n]])
  }

  /** At most 100 rows, oldest first. */
  function Batch(q: seq<Row>): seq<Row> {
    if |q| <= 100 then q else q[..100]
  }

  datatype SyncResult = SyncResult(source: nat, error: bool)

  /** The reply's dictionary by source event: the last result wins. */
  function InfoFor(results: seq<SyncResult>, source: nat): Option<SyncResult> {
    if results == [] then None
    else if results[|results| - 1].source == source then Some(results[|results| - 1])
    else InfoFor(results[..|results| - 1], source)
  }

  predicate Acknowledged(row: Row, results: seq<SyncResult>) {
    var info := InfoFor(results, row.event.source);
    info.Some? && !info.value.error
  }

  /** The queue after the acknowledged rows of a batch are removed one by one. */
  function Acknowledge(q: seq<Row>, batch: seq<Row>, results: seq<SyncResult>): seq<Row> {
    if batch == [] then q
    else
      var n := |batch| - 1;
      var rest := Acknowledge(q, batch[..n], results);
      if Acknowledged(batch[n], results) then Remove(rest, batch[n].id) else rest
  }

  // ---------- the log as a value ----------

  predicate Decides(e: LogEntry, plate: Plate) {
    e.plate == plate && Opens(e.decision) && !e.direction.OtherDirection?
  }

  /** Replaying the log: the plate's last barrier-opening passage was an entry. */
  function Present(log: seq<LogEntry>, plate: Plate): bool {
    if log == [] then false
    else
      var e := log[|log| - 1];
      if Decides(e, plate) then e.direction.In? else Present(log[..|log| - 1], plate)
  }

  /** The plate went in or out through an open barrier. */
  ghost predicate Passage(e: LogEntry, plate: Plate) {
    && e.plate == plate && (e.direction.In? || e.direction.Out?)
    && (e.decision == Allow || e.decision == AllowWithWarning || e.decision == OfflineAllow)
  }

  /** The replay means what it says: some opening entry of the plate has no opening passage of it after. */
  lemma {:induction false} PresentMeans(log: seq<LogEntry>, plate: Plate)
    ensures Present(log, plate) <==>
              exists i :: 0 <= i < |log| && Passage(log[i], plate) && log[i].direction.In?
                && forall j :: i < j < |log| ==> !Passage(log[j], plate)
  {
    assert forall e :: Passage(e, plate) <==> Decides(e, plate);
    if log != [] {
      var n := |log| - 1;
      PresentMeans(log[..n], plate);
      assert forall i :: 0 <= i < n ==> log[..n][i] == log[i];
      if Present(log, plate) {
        if Passage(log[n], plate) {
          assert Passage(log[n], plate) && log[n].direction.In?;
        } else {
          var i :| 0 <= i < n && Passage(log[..n][i], plate) && log[..n][i].direction.In?
            && forall j :: i < j < n ==> !Passage(log[..n][j], plate);
          assert forall j :: i < j < |log| ==> !Passage(log[j], plate);
          assert Passage(log[i], plate);
        }
      }
    }
  }

  // ---------- database.LocalDB ----------

  class LocalDB {
    var pending: seq<Row>
    var nextId: nat
    var snapshot: Option<Snapshot>
    var log: seq<LogEntry>
    var openEntries: map<Plate, int>

    /** Row numbers and keys are unique, rows are in time order, and the presence index replays the log. */
    ghost predicate Valid()
      reads this
    {
      && WellQueued(pending, nextId)
      && forall plate :: plate in openEntries <==> Present(log, plate)
    }

    constructor ()
      ensures Valid() && pending == [] && log == [] && snapshot == None
    {
      pending, nextId, snapshot, log, openEntries := [], 0, None, [], map[];
    }

    method AddPending(key: Key, event: SourceEvent, clientDecision: Decision, now: int)
      requires Valid()
      modifies this`pending, this`nextId
      ensures Valid()
      ensures pending == Enqueue(old(pending), Row(old(nextId), key, event, clientDecision, now))
      ensures nextId == if HasKey(old(pending), key) then old(nextId) else old(nextId) + 1
    {
      if HasKey(pending, key) { return; }
      var row := Row(nextId, key, event, clientDecision, now);
      InsertWellQueued(pending, row, nextId);
      pending := Enqueue(pending, row);
      nextId := nextId + 1;
    }

    /** The oldest rows, a hundred at most, in order: none that is left out is older than one that is read. */
    method PendingEvents() returns (rows: seq<Row>)
      requires Valid()
      ensures rows == Batch(pending)
      ensures |rows| == (if |pending| < 100 then |pending| else 100) && InTimeOrder(rows)
      ensures forall row, other :: row in rows && other in pending && other !in rows ==> row.createdAt <= other.createdAt
    {
      rows := if |pending| <= 100 then pending else pending[..100];
      BatchIsOldest(pending);
    }

    method RemovePending(id: nat)
      requires Valid()
      modifies this`pending
      ensures Valid() && pending == Remove(old(pending), id)
    {
      RemoveWellQueued(pending, id, nextId);
      pending := Remove(pending, id);
    }

    method LogEvent(plate: Plate, decision: Decision, direction: Direction, online: bool, now: int)
      requires Valid()
      modifies this`log, this`openEntries
      ensures Valid()
      ensures log == old(log) + [LogEntry(plate, decision, direction, online)]
    {
      ghost var before := log;
      log := log + [LogEntry(plate, decision, direction, online)];
      assert log[..|before|] == before;
      if Opens(decision) && direction.In? {
        openEntries := openEntries[plate := now];
      }
      if direction.Out? && Opens(decision) {
        openEntries := openEntries - {plate};
      }
    }

    method IsLocallyInside(plate: Plate) returns (inside: bool)
      requires Valid()
      ensures inside == Present(log, plate)
    {
      inside := plate in openEntries;
    }
  }

  // ---------- the invariant of the queue ----------

  ghost predicate WellQueued(q: seq<Row>, next: nat) {
    UniqueRows(q, next) && InTimeOrder(q)
  }

  ghost predicate UniqueRows(q: seq<Row>, next: nat) {
    && (forall i :: 0 <= i < |q| ==> q[i].id < next)
    && (forall i, j :: 0 <= i < j < |q| ==> q[i].id != q[j].id && q[i].key != q[j].key)
  }

  ghost predicate InTimeOrder(q: seq<Row>) {
    forall i, j :: 0 <= i < j < |q| ==> q[i].createdAt <= q[j].createdAt
  }

  /** What an upload reads: rows of the queue, as many as there are up to a hundred, and no younger than the others. */
  lemma BatchIsOldest(q: seq<Row>)
    requires InTimeOrder(q)
    ensures |Batch(q)| == (if |q| < 100 then |q| else 100) && InTimeOrder(Batch(q))
    ensures forall row :: row in Batch(q) ==> row in q
    ensures forall row, other :: row in Batch(q) && other in q && other !in Batch(q) ==> row.createdAt <= other.createdAt
  {
    var n := |Batch(q)|;
    forall row, other | row in Batch(q) && other in q && other !in Batch(q) ensures row.createdAt <= other.createdAt {
      var i :| 0 <= i < n && Batch(q)[i] == row;
      var j :| 0 <= j < |q| && q[j] == other;
      assert forall k :: 0 <= k < n ==> Batch(q)[k] == q[k];
      assert j >= n && q[i] == row;
    }
  }

  lemma {:induction false} InsertMembers(q: seq<Row>, row: Row, x: Row)
    ensures x in InsertByTime(q, row) <==> x == row || x in q
  {
    if q != [] && q[|q| - 1].createdAt > row.createdAt {
      var n := |q| - 1;
      assert q == q[..n] + [q[n]];
      InsertMembers(q[..n], row, x);
    }
  }

  /** A row that can follow the others: other number, other key, not older. */
  predicate Follows(x: Row, y: Row) {
    x.id != y.id && x.key != y.key && x.createdAt <= y.createdAt
  }

  lemma WellQueuedGrows(q: seq<Row>, row: Row, next: nat)
    ensures WellQueued(q + [row], next) <==>
              WellQueued(q, next) && row.id < next && forall x :: x in q ==> Follows(x, row)
  {
    var r := q + [row];
    assert r[|q|] == row && forall i :: 0 <= i < |q| ==> r[i] == q[i];
    if WellQueued(r, next) {
      forall i | 0 <= i < |q| ensures q[i].id < next && Follows(q[i], row) { assert r[i] == q[i] && r[|q|] == row; }
      forall i, j | 0 <= i < j < |q| ensures Follows(q[i], q[j]) { assert r[i] == q[i] && r[j] == q[j]; }
    }
    if WellQueued(q, next) && row.id < next && forall x :: x in q ==> Follows(x, row) {
      forall i, j | 0 <= i < j < |r| ensures Follows(r[i], r[j]) {
        assert r[i] == q[i] && (if j < |q| then r[j] == q[j] else r[j] == row);
      }
    }
  }

  lemma {:induction false} InsertWellQueued(q: seq<Row>, row: Row, next: nat)
    requires WellQueued(q, next) && !Queued(q, row.key) && row.id == next
    ensures WellQueued(InsertByTime(q, row), next + 1)
  {
    if q == [] || q[|q| - 1].createdAt <= row.createdAt {
      assert forall x :: x in q ==> Follows(x, row);
      assert WellQueued(q, next + 1);
      WellQueuedGrows(q, row, next + 1);
    } else {
      hide WellQueued;
      var n := |q| - 1;
      assert q == q[..n] + [q[n]];
      WellQueuedGrows(q[..n], q[n], next);
      NotQueued(q, row);
      InsertWellQueued(q[..n], row, next);
      forall x ensures x in InsertByTime(q[..n], row) <==> x == row || x in q[..n] { InsertMembers(q[..n], row, x); }
      WellQueuedGrows(InsertByTime(q[..n], row), q[n], next + 1);
    }
  }

  lemma NotQueued(q: seq<Row>, row: Row)
    requires q != [] && !Queued(q, row.key)
    ensures !Queued(q[..|q| - 1], row.key) && q[|q| - 1].key != row.key
  {
  }

  lemma {:induction false} RemoveMembers(q: seq<Row>, id: nat, row: Row)
    ensures row in Remove(q, id) <==> row in q && row.id != id
  {
    if q != [] {
      var n := |q| - 1;
      assert q == q[..n] + [q[n]];
      RemoveMembers(q[..n], id, row);
    }
  }

  lemma {:induction false} RemoveWellQueued(q: seq<Row>, id: nat, next: nat)
    requires WellQueued(q, next)
    ensures WellQueued(Remove(q, id), next)
  {
    if q != [] {
      hide WellQueued;
      var n := |q| - 1;
      assert q == q[..n] + [q[n]];
      WellQueuedGrows(q[..n], q[n], next);
      RemoveWellQueued(q[..n], id, next);
      forall x ensures x in Remove(q[..n], id) ==> x in q[..n] { RemoveMembers(q[..n], id, x); }
      WellQueuedGrows(Remove(q[..n], id), q[n], next);
    }
  }

  /** An acknowledgement takes out exactly the acknowledged rows of the batch. */
  lemma {:induction false} AcknowledgeMembers(q: seq<Row>, batch: seq<Row>, results: seq<SyncResult>, row: Row)
    ensures row in Acknowledge(q, batch, results) <==>
              row in q && forall i :: 0 <= i < |batch| && batch[i].id == row.id ==> !Acknowledged(batch[i], results)
  {
    if batch != [] {
      var n := |batch| - 1;
      AcknowledgeMembers(q, batch[..n], results, row);
      assert forall i :: 0 <= i < n ==> batch[..n][i] == batch[i];
      RemoveMembers(Acknowledge(q, batch[..n], results), batch[n].id, row);
    }
  }

  lemma {:induction false} AcknowledgeWellQueued(q: seq<Row>, batch: seq<Row>, results: seq<SyncResult>, next: nat)
    requires WellQueued(q, next)
    ensures WellQueued(Acknowledge(q, batch, results), next)
  {
    if batch != [] {
      var n := |batch| - 1;
      AcknowledgeWellQueued(q, batch[..n], results, next);
      RemoveWellQueued(Acknowledge(q, batch[..n], results), batch[n].id, next);
    }
  }

  // ---------- sync.upload_pending and handler.handle_plate_event ----------

  /** What came back from the server: nothing, or a reply that says success, with its results. */
  datatype SyncReply = NoReply | Success(results: seq<SyncResult>)

  /** One upload: read the batch, send it, and remove what the reply acknowledges. */
  method UploadPending(db: LocalDB, online: bool, reply: SyncReply) returns (sent: int)
    requires db.Valid()
    modifies db`pending
    ensures db.Valid()
    ensures
      var batch := Batch(old(db.pending));
      && (batch == [] ==> sent == 0 && db.pending == old(db.pending))
      && (batch != [] && (!online || reply.NoReply?) ==> sent == -1 && db.pending == old(db.pending))
      && (batch != [] && online && reply.Success? ==>
            sent == |batch| && db.pending == Acknowledge(old(db.pending), batch, reply.results))
  {
    hide WellQueued, InTimeOrder, Present, Batch, Remove;
    var rows := db.PendingEvents();
    if rows == [] { return 0; }
    if !online { return -1; }
    if reply.NoReply? { return -1; }
    RemoveAcknowledged(db, rows, reply.results);
    sent := |rows|;
  }

  /** The loop over the uploaded rows. */
  method RemoveAcknowledged(db: LocalDB, rows: seq<Row>, results: seq<SyncResult>)
    requires db.Valid()
    modifies db`pending
    ensures db.Valid() && db.pending == Acknowledge(old(db.pending), rows, results)
  {
    hide WellQueued, Present, Remove;
    for i := 0 to |rows|
      invariant db.Valid()
      invariant db.pending == Acknowledge(old(db.pending), rows[..i], results)
    {
      assert rows[..i + 1][..i] == rows[..i];
      var info := InfoFor(results, rows[i].event.source);
      if info.Some? && !info.value.error {
        db.RemovePending(rows[i].id);
      }
    }
    assert rows[..|rows|] == rows;
  }

  /** How the online attempt went: the server is unreachable, its reply is lost or an error, or it answered. */
  datatype OnlineAttempt = Unreachable | Lost | Answered(decision: Decision, barrierOpen: bool)

  /** One reading: ask the server, else decide from the snapshot and queue the event; log it either way. */
  method HandlePlateEvent(db: LocalDB, gate: GateId, event: SourceEvent, attempt: OnlineAttempt, now: int)
    returns (decision: Decision, barrierOpen: bool)
    requires db.Valid()
    modifies db
    ensures db.Valid() && db.snapshot == old(db.snapshot)
    ensures attempt.Answered? ==> decision == attempt.decision && barrierOpen == attempt.barrierOpen
    ensures attempt.Answered? ==> db.pending == old(db.pending)
    ensures !attempt.Answered? ==>
      var inside := event.plate.Some? && Present(old(db.log), event.plate.value);
      var answer := OfflineDecide(old(db.snapshot), event.plate, event.direction, inside, now);
      && decision == answer.decision && barrierOpen == answer.barrierOpen
      && db.pending == Enqueue(old(db.pending), Row(old(db.nextId), Key(gate, event.source), event, decision, now))
    ensures db.log == old(db.log)
      + [LogEntry(if event.plate.Some? then event.plate.value else event.rawText, decision, event.direction, attempt.Answered?)]
  {
    if attempt.Answered? {
      decision, barrierOpen := attempt.decision, attempt.barrierOpen;
    } else {
      var inside := false;
      if event.plate.Some? { inside := db.IsLocallyInside(event.plate.value); }
      var answer := OfflineDecide(db.snapshot, event.plate, event.direction, inside, now);
      decision, barrierOpen := answer.decision, answer.barrierOpen;
      db.AddPending(Key(gate, event.source), event, decision, now);
    }
    db.LogEvent(if event.plate.Some? then event.plate.value else event.rawText, decision, event.direction,
                attempt.Answered?, now);
  }
}
