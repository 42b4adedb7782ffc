/** Requests that cross: when a commit after other commits still leaves every open session with its occupied row. */
module GateCrossings {
  import opened GateSchema
  import opened Options
  import opened RulesEngine
  import opened GateDecision
  import opened GateInvariants
  import opened GateConcurrency

  /** A plan read from earlier tables: its vehicle is its plate's, and the session it closes is its plate's. */
  ghost predicate Fits(w: World, db: Tables, p: Plan) {
    && p.vehicle == VehicleOf(w, p.plate)
    && (p.closes.Some? ==> p.closes.value < |db.sessions| && p.plate == Some(db.sessions[p.closes.value].plate))
  }

  /** Nobody of the plate is inside once the plan has closed its session; asked of the tables at the commit. */
  ghost predicate Clear(db: Tables, p: Plan) {
    Leaves(p) && p.plate.Some? ==> FindOpen(Close(db.sessions, p.closes), p.plate.value).None?
  }

  ghost predicate OneRow(os: seq<Occupancy>, v: VehicleId) {
    forall i, j :: 0 <= i < |os| && 0 <= j < |os| && OccupiedBy(os[i], v) && OccupiedBy(os[j], v) ==> i == j
  }

  ghost predicate Present(w: World, db: Tables) {
    OneOpen(db.sessions) && OwnVehicle(w, db.sessions) && PresentIsInside(db.sessions, db.occupancies)
  }

  /** A commit that goes through keeps presence if nobody of the plate is left inside. */
  lemma ClearKeepsPresence(w: World, db: Tables, p: Plan)
    requires Present(w, db) && OnePlateEach(w) && OccupiedIsUsed(db.spaces, db.occupancies)
    requires Fits(w, db, p) && Clear(db, p) && !Conflict(db, p)
    ensures Present(w, Commit(w, db, p).0)
  {
    hide FindEvent, LatestOccupied, PresentIsInside, OccupiedIsUsed, Vacate, Enter, OnePlateEach;
    var st1 := Recorded(db, p);
    CloseKeeps(w, db.sessions, db.occupancies, p.closes);
    if EntersNew(p) {
      EnterKeeps(w, st1, p, |db.events|);
    } else if Leaves(p) {
      VacateKeeps(w, st1.sessions, st1, p.plate.value);
      VacateSessions(st1, p.vehicle.value);
    }
  }

  /** If somebody is, and the vehicle has one occupied row, the commit takes that row away and presence is lost. */
  lemma UnclearLosesPresence(w: World, db: Tables, p: Plan)
    requires Present(w, db) && Fits(w, db, p) && !Clear(db, p) && !Conflict(db, p) && OneRow(db.occupancies, p.vehicle.value)
    ensures !Present(w, Commit(w, db, p).0)
  {
    hide FindEvent;
    var v := p.vehicle.value;
    var st1 := Recorded(db, p);
    var after := Commit(w, db, p).0;
    assert after == Vacate(st1, v);
    VacateSessions(st1, v);
    var i := FindOpen(Close(db.sessions, p.closes), p.plate.value).value;
    assert after.sessions[i].open && after.sessions[i].vehicle == Some(v);
    NoRowLeft(st1, v);
  }

  lemma NoRowLeft(st: Tables, v: VehicleId)
    requires OneRow(st.occupancies, v)
    ensures !HasOccupancy(Vacate(st, v).occupancies, v)
  {
    var occ := LatestOccupied(st.occupancies, v);
    var os := Vacate(st, v).occupancies;
    forall j | 0 <= j < |os| ensures !OccupiedBy(os[j], v) {
      if occ.Some? && j != occ.value { assert os[j] == st.occupancies[j]; }
    }
  }

  /** With two occupied rows one stays, and presence with it. */
  lemma SecondRowKeepsPresence(w: World, db: Tables, p: Plan)
    requires Present(w, db) && Fits(w, db, p) && !Clear(db, p) && !Conflict(db, p) && !OneRow(db.occupancies, p.vehicle.value)
    ensures Present(w, Commit(w, db, p).0)
  {
    hide FindEvent, OneOpen, OwnVehicle;
    var v := p.vehicle.value;
    var st1 := Recorded(db, p);
    CloseKeeps(w, db.sessions, db.occupancies, p.closes);
    VacateSessions(st1, v);
    assert Commit(w, db, p).0 == Vacate(st1, v);
    RowsLeft(st1.sessions, st1, v);
  }

  lemma RowsLeft(ss: seq<Session>, st: Tables, v: VehicleId)
    requires PresentIsInside(ss, st.occupancies) && !OneRow(st.occupancies, v)
    ensures PresentIsInside(ss, Vacate(st, v).occupancies)
  {
    var os, os', occ := st.occupancies, Vacate(st, v).occupancies, LatestOccupied(st.occupancies, v);
    var a, b :| 0 <= a < |os| && 0 <= b < |os| && OccupiedBy(os[a], v) && OccupiedBy(os[b], v) && a != b;
    forall i | 0 <= i < |ss| && ss[i].open && ss[i].vehicle.Some? ensures HasOccupancy(os', ss[i].vehicle.value) {
      var j :| 0 <= j < |os| && OccupiedBy(os[j], ss[i].vehicle.value);
      var k := if occ == Some(j) then (if j == a then b else a) else j;
      assert OccupiedBy(os'[k], ss[i].vehicle.value);
    }
  }

  /** A commit keeps presence if and only if it is refused, or nobody of the plate is left inside, or the vehicle has a
      second occupied row. */
  lemma PresenceKeptIff(w: World, db: Tables, p: Plan)
    requires Present(w, db) && OnePlateEach(w) && OccupiedIsUsed(db.spaces, db.occupancies) && Fits(w, db, p)
    ensures Present(w, Commit(w, db, p).0) <==>
              Conflict(db, p) || Clear(db, p) || (p.vehicle.Some? && !OneRow(db.occupancies, p.vehicle.value))
  {
    hide Present, Fits, Clear, OneRow, OccupiedIsUsed, FindEvent;
    if !Conflict(db, p) {
      if Clear(db, p) {
        ClearKeepsPresence(w, db, p);
      } else {
        LeavesKnown(db, p);
        if OneRow(db.occupancies, p.vehicle.value) { UnclearLosesPresence(w, db, p); } else { SecondRowKeepsPresence(w, db, p); }
      }
    }
  }

  lemma LeavesKnown(db: Tables, p: Plan)
    requires !Clear(db, p)
    ensures p.vehicle.Some?
  {
  }

  // ---------- whole interleavings ----------

  ghost predicate AllFit(w: World, s: System) {
    forall id :: id in s.pending ==> Fits(w, s.db, s.pending[id])
  }

  /** Sessions stay at their places, with their plates. */
  ghost predicate SessionsStay(ss: seq<Session>, ss': seq<Session>) {
    |ss| <= |ss'| && forall i :: 0 <= i < |ss| ==> ss'[i].plate == ss[i].plate
  }

  lemma CommitSessionsStay(w: World, db: Tables, p: Plan)
    ensures SessionsStay(db.sessions, Commit(w, db, p).0.sessions)
  {
    hide FindEvent, FindOpen;
    if !Conflict(db, p) && Leaves(p) { VacateSessions(Recorded(db, p), p.vehicle.value); }
  }

  lemma PlanFits(w: World, db: Tables, r: Request)
    ensures Fits(w, db, MakePlan(w, db, r))
  {
    PlanIs(w, db, r);
    DecideCloses(w, db, r);
  }

  lemma DecideCloses(w: World, db: Tables, r: Request)
    ensures
      var b := Decide(w, db, r);
      b.closes.Some? ==> r.plate == Some(db.sessions[b.closes.value].plate)
  {
    hide FindActivePermit, DeclaredCapacity, ConfirmedOccupancy;
  }

  lemma NextFits(w: World, s: System, step: Step)
    requires AllFit(w, s)
    ensures AllFit(w, Next(w, s, step))
  {
    hide Commit, MakePlan, FindEvent;
    match step
    case ReadStep(id, r) => PlanFits(w, s.db, r);
    case CommitStep(id) => if id in s.pending { CommitSessionsStay(w, s.db, s.pending[id]); }
  }

  /** Each commit of the run, when its turn comes, is refused or leaves nobody of its plate inside. */
  ghost predicate NeverCrosses(w: World, s: System, steps: seq<Step>) {
    forall n :: 0 <= n < |steps| ==> ClearStep(Steps(w, s, steps[..n]), steps[n])
  }

  ghost predicate ClearStep(s: System, step: Step) {
    step.CommitStep? && step.id in s.pending ==> Conflict(s.db, s.pending[step.id]) || Clear(s.db, s.pending[step.id])
  }

  ghost predicate Settled(w: World, s: System) {
    Safe(s) && AllFit(w, s) && Present(w, s.db) && OccupiedIsUsed(s.db.spaces, s.db.occupancies)
  }

  lemma NextSettled(w: World, s: System, step: Step)
    requires Settled(w, s) && OnePlateEach(w) && ClearStep(s, step)
    ensures Settled(w, Next(w, s, step))
  {
    hide Safe, AllFit, Present, OccupiedIsUsed, Commit, Conflict, Clear, Fits, OnePlateEach;
    NextSafe(w, s, step);
    NextFits(w, s, step);
    if step.CommitStep? && step.id in s.pending {
      var p := s.pending[step.id];
      FitsOf(w, s, step.id);
      if Conflict(s.db, p) { RefusedSame(w, s.db, p); } else { ClearKeepsPresence(w, s.db, p); }
    }
  }

  lemma FitsOf(w: World, s: System, id: nat)
    requires AllFit(w, s) && id in s.pending
    ensures Fits(w, s.db, s.pending[id])
  {
  }

  lemma RefusedSame(w: World, db: Tables, p: Plan)
    requires Conflict(db, p)
    ensures Commit(w, db, p).0 == db
  {
  }

  /** An interleaving in which no commit crosses keeps an occupied row for every open session of a registered vehicle. */
  lemma {:induction false} InterleavingKeepsPresence(w: World, s: System, steps: seq<Step>)
    requires Settled(w, s) && OnePlateEach(w) && NeverCrosses(w, s, steps)
    ensures Settled(w, Steps(w, s, steps))
  {
    hide Settled, Next, ClearStep, OnePlateEach;
    if steps != [] {
      var n := |steps| - 1;
      forall i | 0 <= i < n ensures ClearStep(Steps(w, s, steps[..n][..i]), steps[..n][i]) {
        assert steps[..n][..i] == steps[..i];
      }
      InterleavingKeepsPresence(w, s, steps[..n]);
      NextSettled(w, Steps(w, s, steps[..n]), steps[n]);
    }
  }

  // ---------- a run that crosses ----------

  const PLATE: Plate := 7
  const KNOWN := World(map[PLATE := 1], map[])
  const ROW := Occupancy(None, Some(1), 0, 0, true)
  const INSIDE := Tables([], [Session(PLATE, Some(1), 0, true)], [ROW], map[], [Permit(PLATE, true, None, ALWAYS, AnyGate, None, 0)])

  function Reading(source: nat, direction: Direction): Request {
    Request(Key(1, source), true, 1, direction, Some(PLATE), false, false, false, true, false, false, 0, 0, 0, 0, None, 0, RulesError)
  }

  function Exit(source: nat): Plan {
    Plan(Key(1, source), Out, Some(PLATE), Some(1), Allow, ExitSessionClosed, 0, Some(0), None, true, Allow)
  }

  function Entry(source: nat): Plan {
    Plan(Key(1, source), In, Some(PLATE), Some(1), Allow, ValidPermit, 0, None, Some((0, 1)), true, Allow)
  }

  const LEFT := INSIDE.(events := [EventOf(Exit(2))], sessions := [Session(PLATE, Some(1), 0, false)], occupancies := [ROW.(occupied := false)])
  const AGAIN := LEFT.(events := LEFT.events + [EventOf(Entry(3))], sessions := LEFT.sessions + [Session(PLATE, Some(1), 1, true)],
                       occupancies := LEFT.occupancies + [Occupancy(None, Some(1), 1, 0, true)],
                       permits := [Permit(PLATE, true, None, ALWAYS, AnyGate, None, 1)])

  lemma ExitPlanned(source: nat)
    requires source == 1 || source == 2
    ensures Read(KNOWN, INSIDE, Reading(source, Out)) == Planned(Exit(source))
  {
  }

  lemma EntryPlanned()
    ensures Read(KNOWN, LEFT, Reading(3, In)) == Planned(Entry(3))
  {
  }

  lemma SecondExitCommits()
    ensures Commit(KNOWN, INSIDE, Exit(2)).0 == LEFT
  {
  }

  lemma EntryCommits()
    ensures Commit(KNOWN, LEFT, Entry(3)).0 == AGAIN
  {
  }

  lemma StepsNext(w: World, s: System, steps: seq<Step>, n: nat)
    requires n < |steps|
    ensures Steps(w, s, steps[..n + 1]) == Next(w, Steps(w, s, steps[..n]), steps[n])
  {
    assert steps[..n + 1][..n] == steps[..n];
  }

  /** Two exits read the session; the second one commits, the vehicle comes back, and then the first one commits: it
      takes the new row away, and the vehicle has an open session and no occupied row. */
  lemma CrossingLosesPresence()
    ensures
      var run := [ReadStep(0, Reading(1, Out)), ReadStep(1, Reading(2, Out)), CommitStep(1), ReadStep(2, Reading(3, In)),
                  CommitStep(2), CommitStep(0)];
      Present(KNOWN, INSIDE) && !Present(KNOWN, Steps(KNOWN, System(INSIDE, map[], []), run).db)
  {
    hide Read, Commit, Present;
    var s := System(INSIDE, map[], []);
    var run := [ReadStep(0, Reading(1, Out)), ReadStep(1, Reading(2, Out)), CommitStep(1), ReadStep(2, Reading(3, In)),
                CommitStep(2), CommitStep(0)];
    ExitPlanned(1);
    ExitPlanned(2);
    EntryPlanned();
    SecondExitCommits();
    EntryCommits();
    StepsNext(KNOWN, s, run, 0);
    StepsNext(KNOWN, s, run, 1);
    StepsNext(KNOWN, s, run, 2);
    StepsNext(KNOWN, s, run, 3);
    StepsNext(KNOWN, s, run, 4);
    StepsNext(KNOWN, s, run, 5);
    assert run[..6] == run;
    PresentBefore();
    LateExit();
  }

  lemma PresentBefore()
    ensures Present(KNOWN, INSIDE)
  {
    assert OccupiedBy(INSIDE.occupancies[0], 1);
  }

  lemma LateExit()
    ensures !Present(KNOWN, Commit(KNOWN, AGAIN, Exit(1)).0)
  {
    assert OpenFor(AGAIN.sessions[1], PLATE);
    assert OccupiedBy(AGAIN.occupancies[1], 1);
    UnclearLosesPresence(KNOWN, AGAIN, Exit(1));
  }
}
