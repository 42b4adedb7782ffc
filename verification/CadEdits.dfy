/** What an import keeps: codes stay distinct, and an operator's edit goes to the nearest free spot or nowhere. */
module CadEdits {
  import opened Options
  import opened CadImport

  // ---------- which spot an edit gets ----------

  /** The row the k-th edit gets, after the edits before it have been served. */
  function Choice(rows: seq<Row>, order: seq<nat>, edits: seq<Edit>, k: nat): (r: Option<nat>)
    requires Places(order, |rows|) && k < |edits|
    ensures r.Some? ==> r.value < |rows|
  {
    var (now, taken) := Restore(rows, order, edits[..k]);
    Nearest(now, order, taken, edits[k])
  }

  predicate Chosen(rows: seq<Row>, order: seq<nat>, edits: seq<Edit>, k: nat, i: nat)
    requires Places(order, |rows|)
  {
    k < |edits| && Choice(rows, order, edits, k) == Some(i)
  }

  /** The row lies in the disc of radius 0.6 around the old centre. */
  predicate WithinReach(r: Row, o: Edit) {
    && r.cx.Some? && r.cy.Some?
    && (r.cx.value - o.cx) * (r.cx.value - o.cx) + (r.cy.value - o.cy) * (r.cy.value - o.cy) <= 0.36
  }

  /** One row lies no farther from the old centre than another. */
  predicate NoFarther(a: Row, b: Row, o: Edit) {
    && a.cx.Some? && a.cy.Some? && b.cx.Some? && b.cy.Some?
    && (a.cx.value - o.cx) * (a.cx.value - o.cx) + (a.cy.value - o.cy) * (a.cy.value - o.cy)
    <= (b.cx.value - o.cx) * (b.cx.value - o.cx) + (b.cy.value - o.cy) * (b.cy.value - o.cy)
  }

  lemma ReachIs(r: Row, o: Edit)
    ensures WithinReach(r, o) <==> Located(r) && Distance(r, o) <= REACH
  {
  }

  lemma NoFartherIs(a: Row, b: Row, o: Edit)
    ensures NoFarther(a, b, o) <==> Located(a) && Located(b) && Distance(a, o) <= Distance(b, o)
  {
  }

  /** Within reach, neither coordinate is off by more than 0.6. */
  lemma WithinReachOnEachAxis(r: Row, o: Edit)
    requires WithinReach(r, o)
    ensures -0.6 <= r.cx.value - o.cx <= 0.6 && -0.6 <= r.cy.value - o.cy <= 0.6
  {
    Leg(r.cx.value - o.cx, r.cy.value - o.cy);
    Leg(r.cy.value - o.cy, r.cx.value - o.cx);
  }

  lemma Leg(x: real, y: real)
    requires x * x + y * y <= 0.36
    ensures -0.6 <= x <= 0.6
  {
    assert y * y >= 0.0;
    if x > 0.6 { Grows(x); } else if x < -0.6 { Grows(-x); }
  }

  lemma Grows(x: real)
    requires x > 0.6
    ensures x * x > 0.36
  {
    assert x * x > 0.6 * x;
  }

  /** The inner loop finds a free row within reach, no farther than any other, or there is none. */
  lemma {:induction false} BestIs(rows: seq<Row>, order: seq<nat>, taken: set<nat>, o: Edit, n: nat)
    requires Places(order, |rows|) && n <= |order|
    ensures
      var (best, d) := Best(rows, order, taken, o, n);
      && (best.None? ==> d == REACH)
      && (best.Some? ==> best.value in order[..n] && best.value !in taken && WithinReach(rows[best.value], o)
                         && d == Distance(rows[best.value], o))
      && (forall m :: 0 <= m < n && order[m] !in taken && Located(rows[order[m]]) ==>
            if best.Some? then NoFarther(rows[best.value], rows[order[m]], o) else !WithinReach(rows[order[m]], o))
  {
    hide Distance, WithinReach, NoFarther;
    forall r ensures WithinReach(r, o) <==> Located(r) && Distance(r, o) <= REACH { ReachIs(r, o); }
    forall a, b ensures NoFarther(a, b, o) <==> Located(a) && Located(b) && Distance(a, o) <= Distance(b, o) { NoFartherIs(a, b, o); }
    if n > 0 {
      BestIs(rows, order, taken, o, n - 1);
      assert order[..n] == order[..n - 1] + [order[n - 1]];
    }
  }

  /** Of spots equally far the edit gets the later one: whatever is later in the query and free is farther. */
  lemma {:induction false} LaterOfEquals(rows: seq<Row>, order: seq<nat>, taken: set<nat>, o: Edit, n: nat)
    requires Places(order, |rows|) && n <= |order| && Increasing(order)
    ensures
      var best := Best(rows, order, taken, o, n).0;
      forall m :: 0 <= m < n && best.Some? && best.value < order[m] && order[m] !in taken && Located(rows[order[m]]) ==>
        !NoFarther(rows[order[m]], rows[best.value], o)
  {
    hide Distance, NoFarther, WithinReach;
    forall a, b ensures NoFarther(a, b, o) <==> Located(a) && Located(b) && Distance(a, o) <= Distance(b, o) { NoFartherIs(a, b, o); }
    if n > 0 {
      LaterOfEquals(rows, order, taken, o, n - 1);
      BestIs(rows, order, taken, o, n - 1);
    }
  }

  predicate Increasing(order: seq<nat>) {
    forall a, b :: 0 <= a < b < |order| ==> order[a] < order[b]
  }

  lemma ChosenBefore(rows: seq<Row>, order: seq<nat>, edits: seq<Edit>, n: nat, k: nat, i: nat)
    requires Places(order, |rows|) && k < n <= |edits|
    ensures Chosen(rows, order, edits[..n], k, i) == Chosen(rows, order, edits, k, i)
  {
    hide Restore, Nearest;
    assert edits[..n][..k] == edits[..k];
  }

  lemma NearestIsFree(rows: seq<Row>, order: seq<nat>, taken: set<nat>, o: Edit)
    requires Places(order, |rows|)
    ensures
      var r := Nearest(rows, order, taken, o);
      r.Some? ==> r.value !in taken && r.value in order && WithinReach(rows[r.value], o)
  {
    hide Distance, Best, WithinReach;
    BestIs(rows, order, taken, o, |order|);
    assert order[..|order|] == order;
  }

  /** Serving edits moves no spot, and changes only the rows that were taken. */
  lemma {:induction false} UntakenUnchanged(rows: seq<Row>, order: seq<nat>, edits: seq<Edit>, i: nat)
    requires Places(order, |rows|) && i < |rows|
    ensures
      var (now, taken) := Restore(rows, order, edits);
      && (i !in taken ==> now[i] == rows[i])
      && now[i].cx == rows[i].cx && now[i].cy == rows[i].cy
  {
    hide Nearest;
    if edits != [] { UntakenUnchanged(rows, order, edits[..|edits| - 1], i); }
  }

  /** A row is taken exactly when some edit got it. */
  lemma {:induction false} TakenIsChosen(rows: seq<Row>, order: seq<nat>, edits: seq<Edit>, i: nat)
    requires Places(order, |rows|) && i in Restore(rows, order, edits).1
    ensures i < |rows| && exists k :: Chosen(rows, order, edits, k, i)
  {
    hide Nearest;
    var n := |edits| - 1;
    var (now, taken) := Restore(rows, order, edits[..n]);
    if i in taken {
      TakenIsChosen(rows, order, edits[..n], i);
      var k :| Chosen(rows, order, edits[..n], k, i);
      ChosenBefore(rows, order, edits, n, k, i);
    } else {
      assert Chosen(rows, order, edits, n, i);
    }
  }

  /** The row an edit got ends with that edit's code and, if valid, its status. */
  lemma {:induction false} ChosenRow(rows: seq<Row>, order: seq<nat>, edits: seq<Edit>, k: nat, i: nat)
    requires Places(order, |rows|) && Chosen(rows, order, edits, k, i)
    ensures
      var (now, taken) := Restore(rows, order, edits);
      i in taken && i < |rows| && now[i] == Edited(rows[i], edits[k])
  {
    hide Nearest;
    var n := |edits| - 1;
    var (now, taken) := Restore(rows, order, edits[..n]);
    NearestIsFree(now, order, taken, edits[n]);
    if k == n {
      UntakenUnchanged(rows, order, edits[..n], i);
    } else {
      ChosenBefore(rows, order, edits, n, k, i);
      ChosenRow(rows, order, edits[..n], k, i);
    }
  }

  /** No spot takes two old codes. */
  lemma ChosenOnce(rows: seq<Row>, order: seq<nat>, edits: seq<Edit>, k: nat, l: nat, i: nat)
    requires Places(order, |rows|) && k < l && Chosen(rows, order, edits, k, i)
    ensures !Chosen(rows, order, edits, l, i)
  {
    hide Nearest, Restore;
    if l < |edits| {
      ChosenBefore(rows, order, edits, l, k, i);
      ChosenRow(rows, order, edits[..l], k, i);
      var (now, taken) := Restore(rows, order, edits[..l]);
      NearestIsFree(now, order, taken, edits[l]);
    }
  }

  /** An edit that is restored goes to a queried spot within 0.6 of its old centre, no farther than any spot that no earlier
      edit took, and the spot ends where it was, with the edit's code and its status, if that is valid; one that is not
      restored had every spot within 0.6 taken by earlier edits. */
  lemma EditPlaced(rows: seq<Row>, order: seq<nat>, edits: seq<Edit>, k: nat)
    requires Places(order, |rows|) && k < |edits|
    ensures
      match Choice(rows, order, edits, k)
      case Some(i) =>
        && i in order && WithinReach(rows[i], edits[k])
        && (var row := Restore(rows, order, edits).0[i];
            && row.cx == rows[i].cx && row.cy == rows[i].cy && row.code == edits[k].code
            && row.status == if edits[k].status in STATUSES then edits[k].status else rows[i].status)
        && forall j :: j in order && Located(rows[j]) && (forall l :: 0 <= l < k ==> !Chosen(rows, order, edits, l, j))
             ==> NoFarther(rows[i], rows[j], edits[k])
      case None =>
        forall j :: j in order && WithinReach(rows[j], edits[k]) ==> exists l :: 0 <= l < k && Chosen(rows, order, edits, l, j)
  {
    hide Restore, Best, Distance, WithinReach, NoFarther, ValidStatus;
    ValidIs(edits[k].status);
    var (now, taken) := Restore(rows, order, edits[..k]);
    var o := edits[k];
    BestIs(now, order, taken, o, |order|);
    NearestIsFree(now, order, taken, o);
    forall j | j in order ensures now[j].cx == rows[j].cx && now[j].cy == rows[j].cy {
      UntakenUnchanged(rows, order, edits[..k], j);
    }
    forall j | j in order
      ensures WithinReach(now[j], o) == WithinReach(rows[j], o) && (WithinReach(now[j], o) ==> Located(now[j]))
    {
      SamePlace(now[j], rows[j], now[j], rows[j], o);
    }
    forall i, j | i in order && j in order ensures NoFarther(now[i], now[j], o) == NoFarther(rows[i], rows[j], o) {
      SamePlace(now[i], rows[i], now[j], rows[j], o);
    }
    forall j | j in taken ensures exists l :: 0 <= l < k && Chosen(rows, order, edits, l, j) {
      TakenIsChosen(rows, order, edits[..k], j);
      var l :| Chosen(rows, order, edits[..k], l, j);
      ChosenBefore(rows, order, edits, k, l, j);
    }
    var choice := Choice(rows, order, edits, k);
    if choice.Some? { ChosenRow(rows, order, edits, k, choice.value); }
  }

  /** An edit is lost exactly when earlier edits took every spot within its reach. */
  lemma EditLostIff(rows: seq<Row>, order: seq<nat>, edits: seq<Edit>, k: nat)
    requires Places(order, |rows|) && k < |edits|
    ensures Choice(rows, order, edits, k).None? <==>
              forall j :: j in order && WithinReach(rows[j], edits[k]) ==> exists l :: 0 <= l < k && Chosen(rows, order, edits, l, j)
  {
    hide Choice, WithinReach;
    EditPlaced(rows, order, edits, k);
    if Choice(rows, order, edits, k).Some? {
      var i := Choice(rows, order, edits, k).value;
      forall l | 0 <= l < k ensures !Chosen(rows, order, edits, l, i) {
        if Chosen(rows, order, edits, l, i) { ChosenOnce(rows, order, edits, l, k, i); }
      }
    }
  }

  lemma SamePlace(a: Row, b: Row, c: Row, d: Row, o: Edit)
    requires a.cx == b.cx && a.cy == b.cy && c.cx == d.cx && c.cy == d.cy
    ensures WithinReach(c, o) == WithinReach(d, o) && NoFarther(a, c, o) == NoFarther(b, d, o)
    ensures WithinReach(c, o) ==> Located(c)
  {
  }

  /** The statuses a spot may have. */
  const STATUSES: set<string> := {"free", "occupied", "reserved", "disabled", "maintenance", "context"}

  lemma ValidIs(s: string)
    ensures ValidStatus(s) <==> s in STATUSES
  {
  }

  predicate DistinctEdits(edits: seq<Edit>) {
    forall k, l :: 0 <= k < l < |edits| ==> edits[k].code != edits[l].code
  }

  /** With distinct codes before, distinct old codes, and no old code among them, codes stay distinct. */
  lemma {:induction false} RestoreKeepsDistinct(rows: seq<Row>, order: seq<nat>, edits: seq<Edit>)
    requires Places(order, |rows|) && DistinctCodes(rows) && DistinctEdits(edits)
    requires forall i, k :: 0 <= i < |rows| && 0 <= k < |edits| ==> rows[i].code != edits[k].code
    ensures DistinctCodes(Restore(rows, order, edits).0)
  {
    hide Restore, Chosen;
    var (now, taken) := Restore(rows, order, edits);
    forall i, j | 0 <= i < j < |now| ensures now[i].code != now[j].code {
      var k := CodeFrom(rows, order, edits, i);
      var l := CodeFrom(rows, order, edits, j);
      if k.Some? && l.Some? {
        OneChoice(rows, order, edits, k.value, l.value, i, j);
        assert edits[k.value].code != edits[l.value].code;
      }
    }
  }

  /** Where a row's final code comes from: an edit, or the row itself. */
  lemma CodeFrom(rows: seq<Row>, order: seq<nat>, edits: seq<Edit>, i: nat) returns (k: Option<nat>)
    requires Places(order, |rows|) && i < |rows|
    ensures
      var now := Restore(rows, order, edits).0;
      match k
      case Some(l) => l < |edits| && Chosen(rows, order, edits, l, i) && now[i] == Edited(rows[i], edits[l])
      case None => now[i] == rows[i]
  {
    hide Restore;
    UntakenUnchanged(rows, order, edits, i);
    if i in Restore(rows, order, edits).1 {
      TakenIsChosen(rows, order, edits, i);
      var l :| Chosen(rows, order, edits, l, i);
      ChosenRow(rows, order, edits, l, i);
      k := Some(l);
    } else {
      k := None;
    }
  }

  lemma OneChoice(rows: seq<Row>, order: seq<nat>, edits: seq<Edit>, k: nat, l: nat, i: nat, j: nat)
    requires Places(order, |rows|) && Chosen(rows, order, edits, k, i) && Chosen(rows, order, edits, l, j) && i != j
    ensures k != l
  {
  }

  // ---------- the upsert ----------

  predicate FileHas(items: seq<Item>, code: string) {
    exists i :: 0 <= i < |items| && items[i].code == code
  }

  predicate TableHas(rows: seq<Row>, code: string) {
    exists i :: 0 <= i < |rows| && rows[i].code == code
  }

  /** Two entries of the file ask for the same new row. */
  predicate Clash(base: seq<Row>, items: seq<Item>) {
    exists i, j :: 0 <= i < j < |items| && items[i].code == items[j].code && !TableHas(base, items[i].code)
  }

  lemma {:induction false} UpsertCodes(base: seq<Row>, items: seq<Item>, code: string)
    ensures TableHas(Upsert(base, items), code) <==> TableHas(base, code) || FileHas(items, code)
    ensures forall i :: 0 <= i < |base| ==> Upsert(base, items)[i].code == base[i].code
    ensures |Upsert(base, items)| == |base| + Created(base, items)
  {
    hide Updated, Find;
    if items != [] {
      var n := |items| - 1;
      var rows := Upsert(base, items[..n]);
      UpsertCodes(base, items[..n], code);
      FileGrows(items, code);
      match Find(base, items[n].code)
      case Some(i) =>
        assert base[i].code == items[n].code;
        SameCodes(rows, rows[i := Updated(rows[i], items[n])], code);
      case None =>
        TableGrows(rows, NewRow(items[n]), code);
    }
  }

  lemma FileGrows(items: seq<Item>, code: string)
    requires items != []
    ensures FileHas(items, code) <==> FileHas(items[..|items| - 1], code) || items[|items| - 1].code == code
  {
    if FileHas(items[..|items| - 1], code) {
      var i :| 0 <= i < |items| - 1 && items[..|items| - 1][i].code == code;
      assert items[i].code == code;
    }
  }

  lemma TableGrows(rows: seq<Row>, row: Row, code: string)
    ensures TableHas(rows + [row], code) <==> TableHas(rows, code) || row.code == code
  {
    if TableHas(rows, code) {
      var i :| 0 <= i < |rows| && rows[i].code == code;
      assert (rows + [row])[i].code == code;
    }
    if row.code == code { assert (rows + [row])[|rows|].code == code; }
  }

  lemma SameCodes(rows: seq<Row>, other: seq<Row>, code: string)
    requires |rows| == |other| && forall i :: 0 <= i < |rows| ==> rows[i].code == other[i].code
    ensures TableHas(rows, code) == TableHas(other, code)
    ensures DistinctCodes(rows) == DistinctCodes(other)
  {
  }

  /** The commit of the upsert fails exactly when two entries of the file ask for the same new row. */
  lemma {:induction false} UpsertDistinctIff(base: seq<Row>, items: seq<Item>)
    requires DistinctCodes(base)
    ensures DistinctCodes(Upsert(base, items)) <==> !Clash(base, items)
  {
    hide Updated, Find, DistinctCodes, TableHas;
    if items != [] {
      var n := |items| - 1;
      var rows := Upsert(base, items[..n]);
      UpsertDistinctIff(base, items[..n]);
      ClashGrows(base, items);
      match Find(base, items[n].code)
      case Some(i) =>
        FoundInTable(base, i, items[n].code);
        UpsertCodes(base, items[..n], items[n].code);
        SameCodes(rows, rows[i := Updated(rows[i], items[n])], "");
      case None =>
        NotInTable(base, items[n].code);
        UpsertCodes(base, items[..n], items[n].code);
        DistinctGrows(rows, NewRow(items[n]));
    }
  }

  lemma FoundInTable(base: seq<Row>, i: nat, code: string)
    requires i < |base| && base[i].code == code
    ensures TableHas(base, code)
  {
  }

  lemma NotInTable(base: seq<Row>, code: string)
    requires Find(base, code).None?
    ensures !TableHas(base, code)
  {
  }

  lemma DistinctGrows(rows: seq<Row>, row: Row)
    ensures DistinctCodes(rows + [row]) <==> DistinctCodes(rows) && !TableHas(rows, row.code)
  {
    var all := rows + [row];
    if DistinctCodes(all) {
      forall i | 0 <= i < |rows| ensures rows[i].code != row.code { assert all[i].code != all[|rows|].code; }
      forall i, j | 0 <= i < j < |rows| ensures rows[i].code != rows[j].code { assert all[i].code != all[j].code; }
    }
  }

  lemma ClashGrows(base: seq<Row>, items: seq<Item>)
    requires items != []
    ensures
      var n := |items| - 1;
      Clash(base, items) <==> Clash(base, items[..n]) || (FileHas(items[..n], items[n].code) && !TableHas(base, items[n].code))
  {
    hide TableHas;
    var n := |items| - 1;
    if Clash(base, items[..n]) {
      var i, j :| 0 <= i < j < n && items[..n][i].code == items[..n][j].code && !TableHas(base, items[..n][i].code);
      assert items[i].code == items[j].code;
    }
    if FileHas(items[..n], items[n].code) && !TableHas(base, items[n].code) {
      var i :| 0 <= i < n && items[..n][i].code == items[n].code;
      assert items[i].code == items[n].code;
    }
    if Clash(base, items) {
      var i, j :| 0 <= i < j < |items| && items[i].code == items[j].code && !TableHas(base, items[i].code);
      assert items[..n][i].code == items[i].code;
      if j < n { assert items[..n][j].code == items[j].code; }
    }
  }

  /** Importing again keeps a row's code; without an entry for it the row is untouched, and without an entry that gives
      it a valid status the operator's status stays. */
  lemma {:induction false} ReimportKeeps(base: seq<Row>, items: seq<Item>, i: nat)
    requires i < |base| && DistinctCodes(base)
    ensures
      var row := Upsert(base, items)[i];
      && row.code == base[i].code
      && (!FileHas(items, base[i].code) ==> row == base[i])
      && ((forall j :: 0 <= j < |items| && items[j].code == base[i].code ==> !GivesStatus(items[j])) ==> row.status == base[i].status)
      && (Located(base[i]) ==> Located(row))
  {
    hide Centre, GivesStatus;
    if items != [] {
      var n := |items| - 1;
      ReimportKeeps(base, items[..n], i);
      FileGrows(items, base[i].code);
      assert forall j :: 0 <= j < n ==> items[..n][j] == items[j];
      if items[n].code == base[i].code {
        FoundIs(base, i);
      }
    }
  }

  lemma {:induction false} FoundIs(base: seq<Row>, i: nat)
    requires i < |base| && DistinctCodes(base)
    ensures Find(base, base[i].code) == Some(i)
  {
  }

  lemma LastEntry(base: seq<Row>, items: seq<Item>, i: nat)
    requires i < |base| && DistinctCodes(base) && items != []
    ensures
      var n := |items| - 1;
      var before := Upsert(base, items[..n])[i];
      Upsert(base, items)[i] == if items[n].code == base[i].code then Updated(before, items[n]) else before
  {
    hide Updated;
    if items[|items| - 1].code == base[i].code { FoundIs(base, i); }
  }

  /** The last entry of a row's code that gives a valid status decides the row's status. */
  lemma {:induction false} ReimportTakesStatus(base: seq<Row>, items: seq<Item>, i: nat, j: nat)
    requires i < |base| && DistinctCodes(base) && j < |items| && items[j].code == base[i].code
    requires items[j].status.Some? && items[j].status.value in STATUSES
    requires forall k :: j < k < |items| && items[k].code == base[i].code ==> items[k].status.None? || items[k].status.value !in STATUSES
    ensures Upsert(base, items)[i].status == items[j].status.value
  {
    hide Upsert, Centre, ValidStatus;
    var n := |items| - 1;
    LastEntry(base, items, i);
    if items[n].status.Some? { ValidIs(items[n].status.value); }
    if j < n { ReimportTakesStatus(base, items[..n], i, j); }
  }

  /** And the last one that gives a centre decides where the row is. */
  lemma {:induction false} ReimportTakesCentre(base: seq<Row>, items: seq<Item>, i: nat, j: nat)
    requires i < |base| && DistinctCodes(base) && j < |items| && items[j].code == base[i].code
    requires Centre(items[j]).0.Some? && Centre(items[j]).1.Some?
    requires forall k :: j < k < |items| && items[k].code == base[i].code ==> Centre(items[k]) == (None, None)
    ensures Upsert(base, items)[i].cx == Centre(items[j]).0 && Upsert(base, items)[i].cy == Centre(items[j]).1
  {
    hide Upsert, Centre, GivesStatus;
    var n := |items| - 1;
    LastEntry(base, items, i);
    if j < n { ReimportTakesCentre(base, items[..n], i, j); }
  }

  /** n times a number, added up. */
  function Times(n: nat, a: real): (r: real)
    ensures r == n as real * a
  {
    if n == 0 then 0.0 else Times(n - 1, a) + a
  }

  lemma {:induction false} SumBounds(polygon: seq<(real, real)>, x0: real, x1: real, y0: real, y1: real)
    requires forall k :: 0 <= k < |polygon| ==> x0 <= polygon[k].0 <= x1 && y0 <= polygon[k].1 <= y1
    ensures Times(|polygon|, x0) <= SumX(polygon) <= Times(|polygon|, x1)
    ensures Times(|polygon|, y0) <= SumY(polygon) <= Times(|polygon|, y1)
  {
    if polygon != [] { SumBounds(polygon[..|polygon| - 1], x0, x1, y0, y1); }
  }

  /** A centre taken from the polygon lies within every rectangle that holds all its corners. */
  lemma CentreWithin(item: Item, x0: real, x1: real, y0: real, y1: real)
    requires (item.x.None? || item.y.None?) && |item.polygon| >= 3
    requires forall k :: 0 <= k < |item.polygon| ==> x0 <= item.polygon[k].0 <= x1 && y0 <= item.polygon[k].1 <= y1
    ensures
      var (cx, cy) := Centre(item);
      cx.Some? && cy.Some? && x0 <= cx.value <= x1 && y0 <= cy.value <= y1
  {
    var n := |item.polygon| as real;
    SumBounds(item.polygon, x0, x1, y0, y1);
    Ratio(SumX(item.polygon), n, x0, x1);
    Ratio(SumY(item.polygon), n, y0, y1);
  }

  /** The centre is the mean of the corners: a triangle's is a third of their sum, and one more corner is weighed in with the
      others. It is used only where the file gives no centre and at least three corners. */
  lemma CentreIsMean(item: Item, corner: (real, real))
    ensures (item.x.Some? && item.y.Some?) || |item.polygon| < 3 ==> Centre(item) == (item.x, item.y)
    ensures (item.x.None? || item.y.None?) && |item.polygon| == 3 ==>
              var (cx, cy) := Centre(item);
              && cx.Some? && 3.0 * cx.value == item.polygon[0].0 + item.polygon[1].0 + item.polygon[2].0
              && cy.Some? && 3.0 * cy.value == item.polygon[0].1 + item.polygon[1].1 + item.polygon[2].1
    ensures (item.x.None? || item.y.None?) && |item.polygon| >= 3 ==>
              var (cx, cy) := Centre(item);
              var (dx, dy) := Centre(item.(polygon := item.polygon + [corner]));
              var n := |item.polygon| as real;
              && cx.Some? && cy.Some? && dx.Some? && dy.Some?
              && (n + 1.0) * dx.value == n * cx.value + corner.0 && (n + 1.0) * dy.value == n * cy.value + corner.1
  {
    if (item.x.None? || item.y.None?) && |item.polygon| >= 3 {
      var n := |item.polygon| as real;
      var more := item.polygon + [corner];
      assert more[..|item.polygon|] == item.polygon;
      assert |more| as real == n + 1.0;
      Share(SumX(item.polygon), n);
      Share(SumY(item.polygon), n);
      Share(SumX(more), n + 1.0);
      Share(SumY(more), n + 1.0);
      if |item.polygon| == 3 { SumOfThree(item.polygon); }
    }
  }

  lemma Share(sum: real, n: real)
    requires n > 0.0
    ensures n * (sum / n) == sum
  {
  }

  lemma SumOfThree(p: seq<(real, real)>)
    requires |p| == 3
    ensures SumX(p) == p[0].0 + p[1].0 + p[2].0 && SumY(p) == p[0].1 + p[1].1 + p[2].1
  {
    hide SumX, SumY;
    SumGrows([], p[0]);
    SumGrows([p[0]], p[1]);
    SumGrows([p[0], p[1]], p[2]);
    SumOfNone();
    assert [] + [p[0]] == [p[0]] && [p[0]] + [p[1]] == [p[0], p[1]] && [p[0], p[1]] + [p[2]] == p;
  }

  lemma SumGrows(p: seq<(real, real)>, corner: (real, real))
    ensures SumX(p + [corner]) == SumX(p) + corner.0 && SumY(p + [corner]) == SumY(p) + corner.1
  {
    assert (p + [corner])[..|p|] == p;
  }

  lemma SumOfNone()
    ensures SumX([]) == 0.0 && SumY([]) == 0.0
  {
  }

  lemma Ratio(sum: real, n: real, lo: real, hi: real)
    requires n > 0.0 && n * lo <= sum <= n * hi
    ensures lo <= sum / n <= hi
  {
    assert sum / n * n == sum;
  }

  // ---------- the whole import ----------

  predicate EditHas(edits: seq<Edit>, code: string) {
    exists k :: 0 <= k < |edits| && edits[k].code == code
  }

  lemma EditsGrow(edits: seq<Edit>, o: Edit)
    ensures DistinctEdits(edits + [o]) <==> DistinctEdits(edits) && !EditHas(edits, o.code)
    ensures forall code :: EditHas(edits + [o], code) <==> EditHas(edits, code) || code == o.code
  {
    var all := edits + [o];
    assert all[|edits|] == o;
    forall k | 0 <= k < |edits| ensures all[k] == edits[k] { }
    if DistinctEdits(all) {
      forall k, l | 0 <= k < l < |edits| ensures edits[k].code != edits[l].code { assert all[k].code != all[l].code; }
      forall k | 0 <= k < |edits| ensures edits[k].code != o.code { assert all[k].code != all[|edits|].code; }
    }
    forall code | EditHas(edits, code) ensures EditHas(all, code) {
      var k :| 0 <= k < |edits| && edits[k].code == code;
      assert all[k].code == code;
    }
  }

  /** Exactly the located rows that are not context ones are remembered, with what they have. */
  lemma {:induction false} Remembered(rows: seq<Row>, o: Edit)
    ensures o in EditsOf(rows) <==>
              o.status != "context" && Row(o.code, Some(o.cx), Some(o.cy), o.status) in rows
  {
    if rows != [] {
      var n := |rows| - 1;
      Remembered(rows[..n], o);
      assert rows == rows[..n] + [rows[n]];
    }
  }

  /** Memory follows the table: that of two tables, one after the other, is one memory after the other. */
  lemma {:induction false} RememberedInOrder(rows: seq<Row>, more: seq<Row>)
    ensures EditsOf(rows + more) == EditsOf(rows) + EditsOf(more)
  {
    hide EditsOf;
    if more == [] {
      assert rows + more == rows && EditsOf([]) == [] by { NoneRemembered(); }
    } else {
      var n := |more| - 1;
      RememberedInOrder(rows, more[..n]);
      assert (rows + more)[..|rows| + n] == rows + more[..n];
      RememberedLast(rows + more);
      RememberedLast(more);
    }
  }

  lemma RememberedLast(rows: seq<Row>)
    requires rows != []
    ensures
      var n := |rows| - 1;
      EditsOf(rows) == EditsOf(rows[..n]) + EditsOf([rows[n]])
  {
    assert [rows[|rows| - 1]][..0] == [];
  }

  lemma NoneRemembered()
    ensures EditsOf([]) == []
  {
  }

  /** Exactly the edits are put back whose code the file does not have, and in their order. */
  lemma {:induction false} RenamedInOrder(edits: seq<Edit>, more: seq<Edit>, items: seq<Item>)
    ensures Renamed(edits + more, items) == Renamed(edits, items) + Renamed(more, items)
  {
    hide FileHas, Renamed;
    NoneRenamed(items);
    if more == [] {
      assert edits + more == edits;
    } else {
      var n := |more| - 1;
      RenamedInOrder(edits, more[..n], items);
      assert (edits + more)[..|edits| + n] == edits + more[..n];
      RenamedLast(edits + more, items);
      RenamedLast(more, items);
    }
  }

  lemma RenamedLast(edits: seq<Edit>, items: seq<Item>)
    requires edits != []
    ensures
      var n := |edits| - 1;
      Renamed(edits, items) == Renamed(edits[..n], items) + if FileHas(items, edits[n].code) then [] else [edits[n]]
  {
  }

  lemma {:induction false} RenamedMembers(edits: seq<Edit>, items: seq<Item>, o: Edit)
    ensures o in Renamed(edits, items) <==> o in edits && !FileHas(items, o.code)
  {
    hide FileHas, Renamed;
    if edits != [] {
      var n := |edits| - 1;
      RenamedLast(edits, items);
      RenamedMembers(edits[..n], items, o);
      assert edits == edits[..n] + [edits[n]];
    } else {
      NoneRenamed(items);
    }
  }

  lemma NoneRenamed(items: seq<Item>)
    ensures Renamed([], items) == []
  {
  }

  /** The query returns the places of all rows but context ones, in the order of the table. */
  lemma {:induction false} QueriedAre(rows: seq<Row>)
    ensures Increasing(Queried(rows))
    ensures forall i :: i in Queried(rows) <==> 0 <= i < |rows| && rows[i].status != "context"
  {
    if rows != [] {
      var n := |rows| - 1;
      QueriedAre(rows[..n]);
      var order := Queried(rows[..n]);
      assert forall i :: 0 <= i < n ==> rows[..n][i] == rows[i];
      assert forall i :: i in order + [n] <==> i in order || i == n;
    }
  }

  /** What is remembered: every located spot of the old table, once. */
  lemma {:induction false} EditsAre(rows: seq<Row>)
    requires DistinctCodes(rows)
    ensures DistinctEdits(EditsOf(rows))
    ensures forall code :: EditHas(EditsOf(rows), code) ==> TableHas(rows, code)
  {
    hide DistinctEdits, EditHas, TableHas;
    if rows != [] {
      var n := |rows| - 1;
      EditsAre(rows[..n]);
      assert rows == rows[..n] + [rows[n]];
      DistinctGrows(rows[..n], rows[n]);
      forall code ensures TableHas(rows, code) <==> TableHas(rows[..n], code) || rows[n].code == code {
        TableGrows(rows[..n], rows[n], code);
      }
      if Located(rows[n]) {
        EditsGrow(EditsOf(rows[..n]), Edit(rows[n].code, rows[n].status, rows[n].cx.value, rows[n].cy.value));
      }
      assert EditsOf(rows[..n]) + [] == EditsOf(rows[..n]);
    } else {
      NoEdits();
    }
  }

  lemma NoEdits()
    ensures DistinctEdits([]) && forall code :: !EditHas([], code)
  {
  }

  lemma {:induction false} RenamedAre(edits: seq<Edit>, items: seq<Item>)
    requires DistinctEdits(edits)
    ensures DistinctEdits(Renamed(edits, items))
    ensures forall code :: EditHas(Renamed(edits, items), code) <==> EditHas(edits, code) && !FileHas(items, code)
  {
    hide DistinctEdits, EditHas, FileHas;
    if edits != [] {
      var n := |edits| - 1;
      assert edits == edits[..n] + [edits[n]];
      EditsGrow(edits[..n], edits[n]);
      RenamedAre(edits[..n], items);
      EditsGrow(Renamed(edits[..n], items), edits[n]);
      FileHasIs(items, edits[n].code);
      assert Renamed(edits[..n], items) + [] == Renamed(edits[..n], items);
    } else {
      NoEdits();
    }
  }

  lemma FileHasIs(items: seq<Item>, code: string)
    ensures FileHas(items, code) <==> exists i :: 0 <= i < |items| && items[i].code == code
  {
  }

  lemma EditNotInTable(rows: seq<Row>, edits: seq<Edit>)
    requires forall code :: EditHas(edits, code) ==> !TableHas(rows, code)
    ensures forall i, k :: 0 <= i < |rows| && 0 <= k < |edits| ==> rows[i].code != edits[k].code
  {
    forall i, k | 0 <= i < |rows| && 0 <= k < |edits| ensures rows[i].code != edits[k].code {
      assert TableHas(rows, rows[i].code) && EditHas(edits, edits[k].code);
    }
  }

  /** Restoring after a purge never breaks the uniqueness of codes, so its commit cannot fail. */
  lemma RestoreCannotClash(rows: seq<Row>, items: seq<Item>)
    requires DistinctCodes(rows) && DistinctCodes(Upsert([], items))
    ensures
      var upserted := Upsert([], items);
      DistinctCodes(Restore(upserted, Queried(upserted), Renamed(EditsOf(rows), items)).0)
  {
    hide DistinctCodes, DistinctEdits, EditHas, TableHas, FileHas, Restore, Upsert;
    var upserted := Upsert([], items);
    var edits := Renamed(EditsOf(rows), items);
    EditsAre(rows);
    RenamedAre(EditsOf(rows), items);
    forall code ensures TableHas(upserted, code) ==> FileHas(items, code) {
      UpsertCodes([], items, code);
      EmptyTable(code);
    }
    EditNotInTable(upserted, edits);
    RestoreKeepsDistinct(upserted, Queried(upserted), edits);
  }

  lemma EmptyTable(code: string)
    ensures !TableHas([], code) && DistinctCodes([])
  {
  }

  lemma NothingRestored(rows: seq<Row>, items: seq<Item>)
    ensures Renamed([], items) == [] && Restore(rows, Queried(rows), []).0 == rows
  {
  }

  /** Whatever is imported into a table with distinct codes, codes stay distinct; the import fails exactly when two
      entries of the file ask for the same new row, and then a purge has still emptied the table. */
  lemma ImportKeepsDistinct(rows: seq<Row>, items: seq<Item>, purge: bool, keepEdits: bool)
    requires DistinctCodes(rows)
    ensures
      var (after, outcome) := Import(rows, items, purge, keepEdits);
      var base := if purge then [] else rows;
      && DistinctCodes(after)
      && (outcome.Raised? <==> Clash(base, items))
      && (outcome.Raised? ==> after == base)
      && (outcome.Done? ==> outcome.created + outcome.updated == |items| && |after| == |base| + outcome.created)
  {
    hide DistinctCodes, TableHas, Clash, Restore, Upsert, Queried, Renamed, EditsOf;
    var base := if purge then [] else rows;
    var upserted := Upsert(base, items);
    EmptyTable("");
    UpsertDistinctIff(base, items);
    UpsertCodes(base, items, "");
    if DistinctCodes(upserted) {
      if purge && keepEdits {
        RestoreCannotClash(rows, items);
      } else {
        NothingRestored(upserted, items);
      }
    }
  }

  /** An import that is not a refresh with edits is the upsert alone. */
  lemma WithoutEditsUpsertOnly(rows: seq<Row>, items: seq<Item>, purge: bool, keepEdits: bool)
    requires DistinctCodes(rows) && !(purge && keepEdits)
    ensures
      var (after, outcome) := Import(rows, items, purge, keepEdits);
      outcome.Done? ==> after == Upsert(if purge then [] else rows, items)
  {
    hide DistinctCodes, Restore, Upsert, Queried, Renamed, EditsOf;
    NothingRestored(Upsert(if purge then [] else rows, items), items);
  }

  // ---------- what an import does not keep ----------

  /** After a purge a spot no renamed edit took is what the file alone makes of it: the status an operator gave it
      is gone, although the code was not renamed. */
  lemma UnrenamedForgotten(rows: seq<Row>, items: seq<Item>, j: nat)
    requires DistinctCodes(rows) && !Clash([], items) && j < |items|
    ensures
      var upserted := Upsert([], items);
      var edits := Renamed(EditsOf(rows), items);
      var (after, outcome) := Import(rows, items, true, true);
      && |upserted| == |after| == |items| && Places(Queried(upserted), |upserted|)
      && ((forall k :: !Chosen(upserted, Queried(upserted), edits, k, j)) ==> after[j] == NewRow(items[j]))
  {
    hide DistinctCodes, Clash, Restore, Upsert, Queried, Renamed, EditsOf, Chosen;
    EmptyTable("");
    ImportKeepsDistinct(rows, items, true, true);
    UpsertDistinctIff([], items);
    FreshRows(items, j);
    RestoreCannotClash(rows, items);
    var upserted := Upsert([], items);
    var k := CodeFrom(upserted, Queried(upserted), Renamed(EditsOf(rows), items), j);
  }

  /** A new row has the entry's code and centre, and its status if that is valid, else "free". */
  lemma NewRowIs(item: Item)
    ensures
      var row := NewRow(item);
      && row.code == item.code && (row.cx, row.cy) == Centre(item)
      && row.status == if item.status.Some? && item.status.value in STATUSES then item.status.value else "free"
  {
    if item.status.Some? { ValidIs(item.status.value); }
  }

  lemma {:induction false} FreshRows(items: seq<Item>, j: nat)
    requires j < |items|
    ensures |Upsert([], items)| == |items| && Upsert([], items)[j] == NewRow(items[j])
  {
    hide NewRow;
    var n := |items| - 1;
    if n > 0 { FreshRows(items[..n], if j < n then j else 0); }
  }

  /** The table after a purge that keeps edits is the file's rows with the renamed edits served. */
  lemma RefreshIs(rows: seq<Row>, items: seq<Item>)
    requires DistinctCodes(rows) && !Clash([], items)
    ensures
      var table, edits := Upsert([], items), Renamed(EditsOf(rows), items);
      && Import(rows, items, true, true).0 == Restore(table, Queried(table), edits).0
      && DistinctEdits(edits) && |table| == |items| && DistinctCodes(table)
      && forall i, k :: 0 <= i < |table| && 0 <= k < |edits| ==> table[i].code != edits[k].code
  {
    hide DistinctCodes, Clash, Restore, Upsert, Queried, Renamed, EditsOf, DistinctEdits, EditHas, TableHas, FileHas;
    EmptyTable("");
    UpsertDistinctIff([], items);
    RestoreCannotClash(rows, items);
    EditsAre(rows);
    RenamedAre(EditsOf(rows), items);
    UpsertCodes([], items, "");
    if |items| > 0 { FreshRows(items, 0); }
    forall code ensures TableHas(Upsert([], items), code) ==> FileHas(items, code) {
      UpsertCodes([], items, code);
      EmptyTable(code);
    }
    EditNotInTable(Upsert([], items), Renamed(EditsOf(rows), items));
  }

  /** The status a new row has from the file. */
  function FileStatus(item: Item): string {
    if GivesStatus(item) then item.status.value else "free"
  }

  /** A spot that was not renamed, and that no renamed edit can reach: it keeps its code, and the operator's status
      survives the refresh if and only if it is the file's, or "free" where the file gives none. */
  lemma UnrenamedStatusIff(rows: seq<Row>, items: seq<Item>, i: nat, j: nat)
    requires DistinctCodes(rows) && !Clash([], items) && i < |rows| && j < |items| && rows[i].code == items[j].code
    requires forall k :: 0 <= k < |Renamed(EditsOf(rows), items)| ==> !WithinReach(NewRow(items[j]), Renamed(EditsOf(rows), items)[k])
    ensures
      var after := Import(rows, items, true, true).0;
      && |after| == |items| && after[j].code == rows[i].code
      && (after[j].status == rows[i].status <==> rows[i].status == FileStatus(items[j]))
  {
    hide DistinctCodes, Clash, Restore, Upsert, Queried, Renamed, EditsOf, WithinReach;
    var table, edits := Upsert([], items), Renamed(EditsOf(rows), items);
    UnrenamedForgotten(rows, items, j);
    FreshRows(items, j);
    forall k | Chosen(table, Queried(table), edits, k, j) ensures false {
      EditPlaced(table, Queried(table), edits, k);
    }
  }

  /** A renamed spot whose reach no other renamed edit shares: its code survives the refresh if and only if the file has
      a spot within reach, and then with its status, if that is a valid one. */
  lemma RenamedSurvivesIff(rows: seq<Row>, items: seq<Item>, k: nat)
    requires DistinctCodes(rows) && !Clash([], items) && k < |Renamed(EditsOf(rows), items)|
    requires
      var table, edits := Upsert([], items), Renamed(EditsOf(rows), items);
      forall j, l :: 0 <= j < |table| && 0 <= l < |edits| && l != k && WithinReach(table[j], edits[k]) ==> !WithinReach(table[j], edits[l])
    ensures
      var table, o := Upsert([], items), Renamed(EditsOf(rows), items)[k];
      var after := Import(rows, items, true, true).0;
      && |after| == |table|
      && (TableHas(after, o.code) <==> exists j :: j in Queried(table) && WithinReach(table[j], o))
      && forall j :: 0 <= j < |after| && after[j].code == o.code ==>
           WithinReach(table[j], o) && after[j].status == (if o.status in STATUSES then o.status else table[j].status)
  {
    hide DistinctCodes, Clash, Restore, Upsert, Queried, Renamed, EditsOf, WithinReach, Choice, ValidStatus;
    ValidIs(Renamed(EditsOf(rows), items)[k].status);
    var table, edits := Upsert([], items), Renamed(EditsOf(rows), items);
    var order := Queried(table);
    var after := Import(rows, items, true, true).0;
    RefreshIs(rows, items);
    EditPlaced(table, order, edits, k);
    forall j | 0 <= j < |after| && after[j].code == edits[k].code
      ensures Chosen(table, order, edits, k, j) && after[j] == Edited(table[j], edits[k])
    {
      var l := CodeFrom(table, order, edits, j);
    }
    if exists j :: j in order && WithinReach(table[j], edits[k]) {
      var j :| j in order && WithinReach(table[j], edits[k]);
      PrivateSpotsRestoreAll(table, order, edits, k, j);
      assert after[Choice(table, order, edits, k).value].code == edits[k].code;
    }
  }

  /** An operator's status on a spot whose code the file still has does not survive a refresh that keeps edits. */
  lemma StatusNotKept()
    ensures
      var row := Row("P1", Some(0.0), Some(0.0), "occupied");
      var item := Item("P1", Some(0.0), Some(0.0), [], None);
      Import([row], [item], true, true) == ([row.(status := "free")], Done(1, 0))
  {
    var row := Row("P1", Some(0.0), Some(0.0), "occupied");
    var item := Item("P1", Some(0.0), Some(0.0), [], None);
    var o := Edit("P1", "occupied", 0.0, 0.0);
    assert [row][..0] == [] && [item][..0] == [] && [o][..0] == [];
    assert EditsOf([row]) == [o];
    assert [item][0].code == o.code;
    assert Renamed([o], [item]) == [];
    assert Upsert([], [item]) == [row.(status := "free")];
  }

  /** Every edit is restored when each has a spot within reach that no other edit can reach. */
  lemma PrivateSpotsRestoreAll(rows: seq<Row>, order: seq<nat>, edits: seq<Edit>, k: nat, i: nat)
    requires Places(order, |rows|) && k < |edits| && i in order && WithinReach(rows[i], edits[k])
    requires forall l :: 0 <= l < |edits| && l != k ==> !WithinReach(rows[i], edits[l])
    ensures Choice(rows, order, edits, k).Some?
  {
    hide Choice, WithinReach;
    EditPlaced(rows, order, edits, k);
    if Choice(rows, order, edits, k).None? {
      var l :| 0 <= l < k && Chosen(rows, order, edits, l, i);
      EditPlaced(rows, order, edits, l);
      assert false;
    }
  }

  lemma OneEdit(rows: seq<Row>, order: seq<nat>, o: Edit)
    requires Places(order, |rows|)
    ensures Restore(rows, order, [o]) == match Nearest(rows, order, {}, o)
                                         case None => (rows, {})
                                         case Some(i) => (rows[i := Edited(rows[i], o)], {i})
  {
    hide Nearest;
    assert [o][..0] == [];
    assert forall i: nat :: {} + {i} == {i};
  }

  /** Serving edits in turn can lose one that another assignment would have kept. */
  lemma GreedyCanLose()
    ensures
      var rows := [Row("A", Some(0.0), Some(0.0), "free"), Row("B", Some(1.0), Some(0.0), "free")];
      var edits := [Edit("X", "free", 0.5, 0.0), Edit("Y", "free", 1.2, 0.0)];
      && WithinReach(rows[0], edits[0]) && WithinReach(rows[1], edits[1])
      && Choice(rows, [0, 1], edits, 1).None?
  {
    var rows := [Row("A", Some(0.0), Some(0.0), "free"), Row("B", Some(1.0), Some(0.0), "free")];
    var edits := [Edit("X", "free", 0.5, 0.0), Edit("Y", "free", 1.2, 0.0)];
    assert edits[..0] == [] && edits[..1] == [edits[0]] && [edits[0]][..0] == [];
    assert Best(rows, [0, 1], {}, edits[0], 1) == (Some(0), 0.25);
    assert Nearest(rows, [0, 1], {}, edits[0]) == Some(1);
    var now := rows[1 := Edited(rows[1], edits[0])];
    assert Restore(rows, [0, 1], []) == (rows, {});
    OneEdit(rows, [0, 1], edits[0]);
    assert {} + {1} == {1};
    assert Best(now, [0, 1], {1}, edits[1], 1) == (None, REACH);
    assert Nearest(now, [0, 1], {1}, edits[1]).None?;
  }
}
