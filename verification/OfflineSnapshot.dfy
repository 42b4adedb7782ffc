/** The snapshot the server hands to a gate, and the decision the gate's agent takes from it alone. */
module OfflineSnapshot {
  import opened GateSchema
  import opened Options

  datatype Restriction = Restriction(plate: Plate, active: bool, endsAt: Option<int>)

  datatype AllowedPlate = AllowedPlate(plate: Plate, validUntil: Option<int>, maxEntries: Option<int>, usedEntries: int)

  datatype Snapshot = Snapshot(allowed: seq<AllowedPlate>, restricted: seq<Plate>)

  datatype OfflineReason =
    | NoLocalSnapshot | PlateNotReadable | PlateRestricted | OfflineExitOk | NoLocalEntryRecord
    | PlateNotInSnapshot | PermitExpired | PermitMaxEntriesReached | PlateInLocalSnapshot

  datatype OfflineAnswer = OfflineAnswer(decision: Decision, reason: OfflineReason, barrierOpen: bool)

  // ---------- router.offline_snapshot ----------

  predicate Unexpired(until: Option<int>, now: int) {
    until.None? || now <= until.value
  }

  predicate Listed(p: Permit, gate: GateId, now: int) {
    p.active && Unexpired(p.validUntil, now) && GateAllowed(p, gate)
  }

  predicate Restricts(r: Restriction, now: int) {
    r.active && Unexpired(r.endsAt, now)
  }

  function AllowedOf(p: Permit): AllowedPlate {
    AllowedPlate(p.plate, p.validUntil, p.maxEntries, p.usedEntries)
  }

  function AllowedPlates(ps: seq<Permit>, gate: GateId, now: int): seq<AllowedPlate> {
    if ps == [] then []
    else
      var n := |ps| - 1;
      AllowedPlates(ps[..n], gate, now) + (if Listed(ps[n], gate, now) then [AllowedOf(ps[n])] else [])
  }

  function RestrictedPlates(rs: seq<Restriction>, now: int): seq<Plate> {
    if rs == [] then []
    else
      var n := |rs| - 1;
      RestrictedPlates(rs[..n], now) + (if Restricts(rs[n], now) then [rs[n].plate] else [])
  }

  /** The two loops of the snapshot endpoint over the ACTIVE rows. */
  method MakeSnapshot(permits: seq<Permit>, restrictions: seq<Restriction>, gate: GateId, now: int)
    returns (s: Snapshot)
    ensures s == Snapshot(AllowedPlates(permits, gate, now), RestrictedPlates(restrictions, now))
  {
    var allowed, restricted := [], [];
    for i := 0 to |permits|
      invariant allowed == AllowedPlates(permits[..i], gate, now)
    {
      var p := permits[i];
      assert permits[..i + 1][..i] == permits[..i];
      if !p.active || (p.validUntil.Some? && p.validUntil.value < now) { continue; }
      if p.gates.Gates? && gate !in p.gates.ids { continue; }
      allowed := allowed + [AllowedPlate(p.plate, p.validUntil, p.maxEntries, p.usedEntries)];
    }
    assert permits[..|permits|] == permits;
    for i := 0 to |restrictions|
      invariant restricted == RestrictedPlates(restrictions[..i], now)
    {
      var r := restrictions[i];
      assert restrictions[..i + 1][..i] == restrictions[..i];
      if !r.active || (r.endsAt.Some? && r.endsAt.value < now) { continue; }
      restricted := restricted + [r.plate];
    }
    assert restrictions[..|restrictions|] == restrictions;
    s := Snapshot(allowed, restricted);
  }

  // ---------- decision.offline_decide ----------

  /** The plate's entry in the dictionary built from the list: the last one wins. */
  function LookUp(allowed: seq<AllowedPlate>, plate: Plate): Option<AllowedPlate> {
    if allowed == [] then None
    else if allowed[|allowed| - 1].plate == plate then Some(allowed[|allowed| - 1])
    else LookUp(allowed[..|allowed| - 1], plate)
  }

  function OfflineDecide(snapshot: Option<Snapshot>, plate: Option<Plate>, direction: Direction,
                         locallyInside: bool, now: int): OfflineAnswer
  {
    var review := why => OfflineAnswer(OfflineRequireReview, why, false);
    if snapshot.None? then review(NoLocalSnapshot)
    else if plate.None? then review(OfflineReason.PlateNotReadable)
    else if plate.value in snapshot.value.restricted then review(OfflineReason.PlateRestricted)
    else
      var permit := LookUp(snapshot.value.allowed, plate.value);
      if direction.Out? then
        if locallyInside || permit.Some? then OfflineAnswer(OfflineAllow, OfflineExitOk, true)
        else review(NoLocalEntryRecord)
      else if permit.None? then review(PlateNotInSnapshot)
      else if permit.value.validUntil.Some? && permit.value.validUntil.value < now then review(PermitExpired)
      else if permit.value.maxEntries.Some? && permit.value.usedEntries >= permit.value.maxEntries.value
      then review(PermitMaxEntriesReached)
      else OfflineAnswer(OfflineAllow, PlateInLocalSnapshot, true)
  }

  // ---------- soundness ----------

  /** The dictionary entry comes from the plate's last listed permit. */
  lemma {:induction false} LookUpIsLast(ps: seq<Permit>, gate: GateId, now: int, plate: Plate) returns (i: nat)
    ensures
      var found := LookUp(AllowedPlates(ps, gate, now), plate);
      && (found.None? ==> i == |ps|)
      && (found.Some? ==> i < |ps| && ps[i].plate == plate && Listed(ps[i], gate, now) && found.value == AllowedOf(ps[i]))
      && (forall j :: 0 <= j < |ps| && (i == |ps| || i < j) && ps[j].plate == plate ==> !Listed(ps[j], gate, now))
  {
    if ps == [] {
      i := 0;
    } else {
      var n := |ps| - 1;
      var rest := AllowedPlates(ps[..n], gate, now);
      assert (rest + [AllowedOf(ps[n])])[..|rest|] == rest && rest + [] == rest;
      i := LookUpIsLast(ps[..n], gate, now, plate);
      if Listed(ps[n], gate, now) && ps[n].plate == plate { i := n; }
      else if i == n { i := |ps|; }
    }
  }

  /** A plate is listed as restricted exactly when an active restriction of it has not ended. */
  lemma {:induction false} RestrictedIff(rs: seq<Restriction>, now: int, plate: Plate)
    ensures plate in RestrictedPlates(rs, now) <==> RestrictedAt(rs, plate, now)
  {
    hide RestrictedAt;
    if rs != [] {
      RestrictedIff(rs[..|rs| - 1], now, plate);
    }
    RestrictedGrows(rs, now, plate);
  }

  lemma RestrictedGrows(rs: seq<Restriction>, now: int, plate: Plate)
    ensures RestrictedAt(rs, plate, now) <==>
              rs != [] && (RestrictedAt(rs[..|rs| - 1], plate, now) || (rs[|rs| - 1].plate == plate && Restricts(rs[|rs| - 1], now)))
  {
    if rs != [] {
      var n := |rs| - 1;
      if RestrictedAt(rs[..n], plate, now) {
        var i :| 0 <= i < n && rs[..n][i].plate == plate && rs[..n][i].active
                 && !(rs[..n][i].endsAt.Some? && rs[..n][i].endsAt.value < now);
        assert rs[i].plate == plate;
      }
      assert forall i :: 0 <= i < n ==> rs[..n][i] == rs[i];
    }
  }

  /** An active permit of the plate, for this gate among others or for any, that has not ended. */
  ghost predicate RunsAt(p: Permit, plate: Plate, gate: GateId, at: int) {
    && p.plate == plate && p.active && !(p.validUntil.Some? && p.validUntil.value < at)
    && !(p.gates.Gates? && gate !in p.gates.ids)
  }

  /** One that runs when the snapshot is taken and when it is used, and was not used up. */
  ghost predicate AdmittingPermit(p: Permit, plate: Plate, gate: GateId, taken: int, used: int) {
    && RunsAt(p, plate, gate, taken) && RunsAt(p, plate, gate, used)
    && !(p.maxEntries.Some? && p.maxEntries.value <= p.usedEntries)
  }

  lemma ListedRuns(p: Permit, plate: Plate, gate: GateId, at: int)
    ensures RunsAt(p, plate, gate, at) <==> p.plate == plate && Listed(p, gate, at)
  {
  }

  ghost predicate RestrictedAt(rs: seq<Restriction>, plate: Plate, at: int) {
    exists i :: 0 <= i < |rs| && rs[i].plate == plate && rs[i].active && !(rs[i].endsAt.Some? && rs[i].endsAt.value < at)
  }

  /** An entry opened offline is exactly one whose plate had, in the tables the snapshot was taken from, no
      unexpired active restriction, and whose last permit listed for the gate was still good and had entries left. */
  lemma OfflineEntryIff(ps: seq<Permit>, rs: seq<Restriction>, gate: GateId, taken: int, plate: Plate,
                        direction: Direction, inside: bool, used: int)
    requires !direction.Out?
    ensures
      var s := Snapshot(AllowedPlates(ps, gate, taken), RestrictedPlates(rs, taken));
      OfflineDecide(Some(s), Some(plate), direction, inside, used).barrierOpen <==>
        && !RestrictedAt(rs, plate, taken)
        && exists i :: 0 <= i < |ps| && AdmittingPermit(ps[i], plate, gate, taken, used)
             && forall j :: i < j < |ps| ==> !RunsAt(ps[j], plate, gate, taken)
  {
    hide RestrictedAt, RunsAt;
    RestrictedIff(rs, taken, plate);
    var i := LookUpIsLast(ps, gate, taken, plate);
    forall p, at ensures RunsAt(p, plate, gate, at) <==> p.plate == plate && Listed(p, gate, at) { ListedRuns(p, plate, gate, at); }
    forall k | 0 <= k < |ps| && AdmittingPermit(ps[k], plate, gate, taken, used)
      && (forall j :: k < j < |ps| ==> !RunsAt(ps[j], plate, gate, taken))
      ensures i == k
    {
      assert RunsAt(ps[k], plate, gate, taken);
    }
  }

  /** Soundness alone: an offline entry needs an active, usable permit and no active restriction. */
  lemma OfflineEntrySound(ps: seq<Permit>, rs: seq<Restriction>, gate: GateId, taken: int, plate: Plate, inside: bool, used: int)
    requires
      var s := Snapshot(AllowedPlates(ps, gate, taken), RestrictedPlates(rs, taken));
      OfflineDecide(Some(s), Some(plate), In, inside, used).barrierOpen
    ensures exists i :: 0 <= i < |ps| && AdmittingPermit(ps[i], plate, gate, taken, used)
    ensures !RestrictedAt(rs, plate, taken)
  {
    OfflineEntryIff(ps, rs, gate, taken, plate, In, inside, used);
  }

  /** An exit opened offline is exactly one whose plate was not restricted when the snapshot was taken, and is inside
      by the agent's own index or has a permit listed for the gate; neither its end nor its entries are looked at. */
  lemma OfflineExitIff(ps: seq<Permit>, rs: seq<Restriction>, gate: GateId, taken: int, plate: Plate, inside: bool, used: int)
    ensures
      var s := Snapshot(AllowedPlates(ps, gate, taken), RestrictedPlates(rs, taken));
      OfflineDecide(Some(s), Some(plate), Out, inside, used).barrierOpen <==>
        !RestrictedAt(rs, plate, taken)
        && (inside || exists i :: 0 <= i < |ps| && RunsAt(ps[i], plate, gate, taken))
  {
    hide RestrictedAt, RunsAt;
    RestrictedIff(rs, taken, plate);
    forall p ensures RunsAt(p, plate, gate, taken) <==> p.plate == plate && Listed(p, gate, taken) { ListedRuns(p, plate, gate, taken); }
    var i := LookUpIsLast(ps, gate, taken, plate);
  }

  /** The decision goes with the barrier: an offline allow opens it, and anything else is a referral that does not. The log of
      the agent, and with it its index of who is inside, are made of the decision. */
  lemma DecisionOpens(snapshot: Option<Snapshot>, plate: Option<Plate>, direction: Direction, inside: bool, now: int)
    ensures
      var answer := OfflineDecide(snapshot, plate, direction, inside, now);
      answer.decision == if answer.barrierOpen then OfflineAllow else OfflineRequireReview
    ensures
      var answer := OfflineDecide(snapshot, plate, direction, inside, now);
      && (answer.reason == NoLocalSnapshot <==> snapshot.None?)
      && (answer.reason == OfflineReason.PlateNotReadable <==> snapshot.Some? && plate.None?)
      && (answer.reason == OfflineExitOk <==> answer.barrierOpen && direction.Out?)
      && (answer.reason == PlateInLocalSnapshot <==> answer.barrierOpen && !direction.Out?)
  {
    hide LookUp;
  }

  /** Why the server's list, or the agent's index, did not let a plate through: told from the tables the snapshot was taken from. */
  lemma OfflineRefusedFor(ps: seq<Permit>, rs: seq<Restriction>, gate: GateId, taken: int, plate: Plate, direction: Direction,
                          inside: bool, used: int)
    ensures
      var s := Snapshot(AllowedPlates(ps, gate, taken), RestrictedPlates(rs, taken));
      var reason := OfflineDecide(Some(s), Some(plate), direction, inside, used).reason;
      var listed := exists i :: 0 <= i < |ps| && RunsAt(ps[i], plate, gate, taken);
      && (reason == OfflineReason.PlateRestricted <==> RestrictedAt(rs, plate, taken))
      && (reason == NoLocalEntryRecord <==> !RestrictedAt(rs, plate, taken) && direction.Out? && !inside && !listed)
      && (reason == PlateNotInSnapshot <==> !RestrictedAt(rs, plate, taken) && !direction.Out? && !listed)
  {
    hide RestrictedAt, RunsAt;
    RestrictedIff(rs, taken, plate);
    var i := LookUpIsLast(ps, gate, taken, plate);
    forall p ensures RunsAt(p, plate, gate, taken) <==> p.plate == plate && Listed(p, gate, taken) { ListedRuns(p, plate, gate, taken); }
  }

  /** A listed plate is refused as expired exactly when its last listed permit ended since. */
  lemma OfflineExpiredIff(ps: seq<Permit>, rs: seq<Restriction>, gate: GateId, taken: int, plate: Plate, direction: Direction,
                          inside: bool, used: int)
    requires !direction.Out? && !RestrictedAt(rs, plate, taken)
    ensures
      var s := Snapshot(AllowedPlates(ps, gate, taken), RestrictedPlates(rs, taken));
      OfflineDecide(Some(s), Some(plate), direction, inside, used).reason == PermitExpired <==>
        exists i :: 0 <= i < |ps| && RunsAt(ps[i], plate, gate, taken) && ps[i].validUntil.Some? && ps[i].validUntil.value < used
                    && forall j :: i < j < |ps| ==> !RunsAt(ps[j], plate, gate, taken)
  {
    hide RestrictedAt, RunsAt, Listed;
    RestrictedIff(rs, taken, plate);
    var i := LookUpIsLast(ps, gate, taken, plate);
    forall p ensures RunsAt(p, plate, gate, taken) <==> p.plate == plate && Listed(p, gate, taken) { ListedRuns(p, plate, gate, taken); }
    forall k | 0 <= k < |ps| && RunsAt(ps[k], plate, gate, taken) && (forall j :: k < j < |ps| ==> !RunsAt(ps[j], plate, gate, taken))
      ensures i == k
    {
    }
  }

  /** Without a snapshot, or for a restricted plate, nothing opens, in any direction. */
  lemma NothingOpensBlind(snapshot: Option<Snapshot>, plate: Option<Plate>, direction: Direction, inside: bool, now: int)
    ensures OfflineDecide(snapshot, plate, direction, inside, now).barrierOpen ==>
              snapshot.Some? && plate.Some? && plate.value !in snapshot.value.restricted
  {
  }
}
