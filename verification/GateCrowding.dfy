/** How far the yard fills when requests overlap. */
module GateCrowding {
  import opened GateSchema
  import opened Options
  import opened RulesEngine
  import opened GateDecision
  import opened GateInvariants
  import opened GateServing
  import opened GateConcurrency

  /** An entry the service itself allowed, not one a rule let in. */
  ghost predicate Regular(p: Plan) {
    EntersNew(p) && p.base != UnknownPlate
  }

  /** The regular entries that are planned and not yet committed. */
  ghost function Waiting(pending: map<nat, Plan>): set<nat> {
    set id | id in pending && Regular(pending[id])
  }

  /** The most regular entries that were ever waiting at once, and one at least. */
  ghost function Peak(w: World, s: System, steps: seq<Step>): nat {
    if steps == [] then 1
    else
      var n := |Waiting(Steps(w, s, steps).pending)|;
      var before := Peak(w, s, steps[..|steps| - 1]);
      if n > before then n else before
  }

  ghost predicate LetIn(s: System, step: Step) {
    && step.CommitStep? && step.id in s.pending && !Conflict(s.db, s.pending[step.id])
    && EntersNew(s.pending[step.id]) && s.pending[step.id].base == UnknownPlate
  }

  /** The entries that rules let in although their plate was unknown. */
  ghost function LetInCount(w: World, s: System, steps: seq<Step>): nat {
    if steps == [] then 0
    else
      var n := |steps| - 1;
      LetInCount(w, s, steps[..n]) + if LetIn(Steps(w, s, steps[..n]), steps[n]) then 1 else 0
  }

  ghost function RowsInside(s: System): int {
    ConfirmedOccupancy(s.db.occupancies)
  }

  /** A commit adds one occupied row if it is an entry that goes through, and none otherwise. */
  lemma CommitFills(w: World, db: Tables, p: Plan)
    ensures
      var before, after := ConfirmedOccupancy(db.occupancies), ConfirmedOccupancy(Commit(w, db, p).0.occupancies);
      if !Conflict(db, p) && EntersNew(p) then after == before + 1 else after <= before
  {
    hide FindEvent, FindOpen, ConfirmedOccupancy;
    if !Conflict(db, p) {
      if EntersNew(p) {
        var os := Enter(w, Recorded(db, p), p, |db.events|).occupancies;
        ConfirmedAppend(db.occupancies, os[|db.occupancies|]);
      } else if Leaves(p) {
        var occ := LatestOccupied(db.occupancies, p.vehicle.value);
        if occ.Some? { ConfirmedVacate(db.occupancies, occ.value); }
      }
    }
  }

  lemma WaitingJoins(pending: map<nat, Plan>, id: nat, p: Plan)
    requires id !in pending
    ensures |Waiting(pending[id := p])| == |Waiting(pending)| + if Regular(p) then 1 else 0
  {
    assert Waiting(pending[id := p]) == Waiting(pending) + if Regular(p) then {id} else {};
  }

  lemma WaitingLeaves(pending: map<nat, Plan>, id: nat)
    requires id in pending
    ensures |Waiting(pending - {id})| == |Waiting(pending)| - if Regular(pending[id]) then 1 else 0
  {
    assert Waiting(pending - {id}) == Waiting(pending) - if Regular(pending[id]) then {id} else {};
  }

  /** One step: a regular entry is planned only below the capacity, and otherwise rows and waiting entries together grow
      only by an entry that was let in. */
  lemma NextFills(w: World, s: System, step: Step, capacity: int)
    requires capacity > 0
    requires step.ReadStep? ==> LimitedTo(step.request, capacity)
    ensures
      var t := Next(w, s, step);
      || RowsInside(t) + |Waiting(t.pending)| <= RowsInside(s) + |Waiting(s.pending)| + (if LetIn(s, step) then 1 else 0)
      || RowsInside(t) < capacity
  {
    hide ConfirmedOccupancy, Commit, MakePlan, Conflict, Waiting, LimitedTo, FindEvent;
    match step
    case ReadStep(id, r) =>
      if id !in s.pending && Read(w, s.db, r).Planned? {
        var p := MakePlan(w, s.db, r);
        WaitingJoins(s.pending, id, p);
        if Regular(p) { EntryHasRoom(w, s.db, r, capacity); }
      }
    case CommitStep(id) =>
      if id in s.pending {
        WaitingLeaves(s.pending, id);
        CommitFills(w, s.db, s.pending[id]);
      }
  }

  /** Over any interleaving the occupied rows and the regular entries still waiting stay within the capacity, the entries
      that rules let in, and the most regular entries that ever waited at once, less one. */
  lemma {:induction false} CrowdingBounded(w: World, s: System, steps: seq<Step>, capacity: int)
    requires capacity > 0 && s.pending == map[] && RowsInside(s) <= capacity
    requires forall i :: 0 <= i < |steps| && steps[i].ReadStep? ==>
               LimitedTo(steps[i].request, capacity)
    ensures
      var t := Steps(w, s, steps);
      RowsInside(t) + |Waiting(t.pending)| <= capacity + LetInCount(w, s, steps) + Peak(w, s, steps) - 1
  {
    hide Next, LetIn, RowsInside, LimitedTo;
    if steps == [] {
      assert Waiting(s.pending) == {};
    } else {
      var n := |steps| - 1;
      CrowdingBounded(w, s, steps[..n], capacity);
      NextFills(w, Steps(w, s, steps[..n]), steps[n], capacity);
    }
  }

  // ---------- exactly when the yard overfills ----------

  /** A regular entry, planned when there was room, commits when there is none. */
  ghost predicate Overfills(s: System, step: Step, bound: int) {
    && step.CommitStep? && step.id in s.pending && !Conflict(s.db, s.pending[step.id])
    && Regular(s.pending[step.id]) && RowsInside(s) >= bound
  }

  /** One step from within a bound stays within it, but for an entry let in by a rule, exactly if it is not of that kind. */
  lemma WithinExactlyWhen(w: World, s: System, step: Step, bound: int)
    requires RowsInside(s) <= bound
    ensures RowsInside(Next(w, s, step)) <= bound + (if LetIn(s, step) then 1 else 0) <==> !Overfills(s, step, bound)
  {
    hide ConfirmedOccupancy, Commit, MakePlan, Conflict, FindEvent;
    if step.CommitStep? && step.id in s.pending { CommitFills(w, s.db, s.pending[step.id]); }
  }

  /** The bound after part of a run: the capacity and the entries let in by rules so far. */
  ghost function Allowance(w: World, s: System, steps: seq<Step>, capacity: int): int {
    capacity + LetInCount(w, s, steps)
  }

  ghost predicate WithinAt(w: World, s: System, steps: seq<Step>, capacity: int, n: nat)
    requires n <= |steps|
  {
    RowsInside(Steps(w, s, steps[..n])) <= Allowance(w, s, steps[..n], capacity)
  }

  ghost predicate OverfillsAt(w: World, s: System, steps: seq<Step>, capacity: int, n: nat)
    requires n < |steps|
  {
    Overfills(Steps(w, s, steps[..n]), steps[n], Allowance(w, s, steps[..n], capacity))
  }

  lemma StepWithin(w: World, s: System, steps: seq<Step>, capacity: int, n: nat)
    requires n < |steps| && WithinAt(w, s, steps, capacity, n)
    ensures WithinAt(w, s, steps, capacity, n + 1) <==> !OverfillsAt(w, s, steps, capacity, n)
  {
    hide Next, LetIn, Overfills, RowsInside;
    assert steps[..n + 1][..n] == steps[..n];
    WithinExactlyWhen(w, Steps(w, s, steps[..n]), steps[n], Allowance(w, s, steps[..n], capacity));
  }

  /** An interleaving stays within the capacity and the entries let in by rules all along if and only if none of its steps
      commits a regular entry when that is reached. */
  lemma RunWithinIff(w: World, s: System, steps: seq<Step>, capacity: int)
    requires RowsInside(s) <= capacity
    ensures (forall n :: 0 <= n <= |steps| ==> WithinAt(w, s, steps, capacity, n)) <==>
              forall n :: 0 <= n < |steps| ==> !OverfillsAt(w, s, steps, capacity, n)
  {
    hide WithinAt, OverfillsAt;
    if forall n :: 0 <= n <= |steps| ==> WithinAt(w, s, steps, capacity, n) {
      forall n | 0 <= n < |steps| ensures !OverfillsAt(w, s, steps, capacity, n) { StepWithin(w, s, steps, capacity, n); }
    }
    if forall n :: 0 <= n < |steps| ==> !OverfillsAt(w, s, steps, capacity, n) {
      forall n | 0 <= n <= |steps| ensures WithinAt(w, s, steps, capacity, n) { WithinUpTo(w, s, steps, capacity, n); }
    }
  }

  lemma {:induction false} WithinUpTo(w: World, s: System, steps: seq<Step>, capacity: int, n: nat)
    requires n <= |steps| && RowsInside(s) <= capacity
    requires forall m :: 0 <= m < |steps| ==> !OverfillsAt(w, s, steps, capacity, m)
    ensures WithinAt(w, s, steps, capacity, n)
  {
    hide OverfillsAt;
    if n > 0 {
      WithinUpTo(w, s, steps, capacity, n - 1);
      StepWithin(w, s, steps, capacity, n - 1);
    }
  }

  // ---------- the bound is needed ----------

  const KNOWN := World(map[7 := 1, 8 := 2], map[])
  const EMPTY := Tables([], [], [], map[], [Permit(7, true, None, ALWAYS, AnyGate, None, 0), Permit(8, true, None, ALWAYS, AnyGate, None, 0)])

  function Arrival(plate: Plate): Request {
    Request(Key(1, plate), true, 1, In, Some(plate), false, false, false, true, false, false, 0, 0, 0, 0, Some(1), 0, RulesError)
  }

  function Entry(plate: Plate): Plan
    requires plate == 7 || plate == 8
  {
    Plan(Key(1, plate), In, Some(plate), Some(plate - 6), Allow, ValidPermit, 0, None, Some((plate - 7, 1)), true, Allow)
  }

  lemma ArrivalPlanned(plate: Plate)
    requires plate == 7 || plate == 8
    ensures Read(KNOWN, EMPTY, Arrival(plate)) == Planned(Entry(plate))
  {
    hide FindActivePermit;
    NoRows();
    OwnPermit(plate);
  }

  lemma OwnPermit(plate: Plate)
    requires plate == 7 || plate == 8
    ensures FindActivePermit(EMPTY.permits, plate, Arrival(plate)) == PermitFound(plate - 7)
  {
    var ps, r := EMPTY.permits, Arrival(plate);
    if plate == 8 {
      assert !PermitOf(ps[0], plate) && PermitOf(ps[1], plate) && PermitUsable(ps[1], r);
      assert FindActivePermit(ps, plate, r, 1, false) == PermitFound(1);
    }
  }

  /** Two vehicles read the one free place before either commits: both are admitted, and with nothing waiting and nobody
      let in by a rule there is one vehicle more than the capacity. */
  lemma OverlapOverfills()
    ensures
      var s, run := System(EMPTY, map[], []), [ReadStep(0, Arrival(7)), ReadStep(1, Arrival(8)), CommitStep(0), CommitStep(1)];
      var t := Steps(KNOWN, s, run);
      RowsInside(t) == 2 && t.pending == map[] && LetInCount(KNOWN, s, run) == 0
  {
    hide Read, Commit, ConfirmedOccupancy;
    var s, run := System(EMPTY, map[], []), [ReadStep(0, Arrival(7)), ReadStep(1, Arrival(8)), CommitStep(0), CommitStep(1)];
    ArrivalPlanned(7);
    ArrivalPlanned(8);
    var one := Commit(KNOWN, EMPTY, Entry(7)).0;
    BothGoThrough();
    CommitFills(KNOWN, EMPTY, Entry(7));
    CommitFills(KNOWN, one, Entry(8));
    NoRows();
    var s2 := System(EMPTY, map[0 := Entry(7), 1 := Entry(8)], []);
    assert run[..4][..3] == run[..3] && run[..3][..2] == run[..2] && run[..2][..1] == run[..1] && run[..1][..0] == [] && run[..4] == run;
    assert Steps(KNOWN, s, run[..1]) == System(EMPTY, map[0 := Entry(7)], []);
    assert Steps(KNOWN, s, run[..2]) == s2;
    assert Steps(KNOWN, s, run[..3]) == Next(KNOWN, s2, CommitStep(0));
    assert LetInCount(KNOWN, s, run[..1]) == 0 && LetInCount(KNOWN, s, run[..2]) == 0 && LetInCount(KNOWN, s, run[..3]) == 0;
  }

  lemma NoRows()
    ensures ConfirmedOccupancy(EMPTY.occupancies) == 0
  {
  }

  lemma BothGoThrough()
    ensures !Conflict(EMPTY, Entry(7)) && !Conflict(Commit(KNOWN, EMPTY, Entry(7)).0, Entry(8))
  {
  }
}
