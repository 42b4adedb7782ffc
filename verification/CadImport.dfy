/** Importing parking spots from a CAD drawing, and putting the operators' edits back after a purge. */
module CadImport {
  import opened Options

  // ---------- rows and items ----------

  /** A row of the spots table; its place in the table stands for its primary key. */
  datatype Row = Row(code: string, cx: Option<real>, cy: Option<real>, status: string)

  /** An entry of the file, with a code; the polygon is used where the centre is not given. */
  datatype Item = Item(code: string, x: Option<real>, y: Option<real>, polygon: seq<(real, real)>, status: Option<string>)

  /** What is remembered of an old row. */
  datatype Edit = Edit(code: string, status: string, cx: real, cy: real)

  datatype Outcome = Raised | Done(created: nat, updated: nat)

  predicate ValidStatus(s: string) {
    s == "free" || s == "occupied" || s == "reserved" || s == "disabled" || s == "maintenance" || s == "context"
  }

  predicate Located(r: Row) {
    r.cx.Some? && r.cy.Some?
  }

  predicate DistinctCodes(rows: seq<Row>) {
    forall i, j :: 0 <= i < j < |rows| ==> rows[i].code != rows[j].code
  }

  // ---------- the upsert ----------

  function SumX(polygon: seq<(real, real)>): real {
    if polygon == [] then 0.0 else SumX(polygon[..|polygon| - 1]) + polygon[|polygon| - 1].0
  }

  function SumY(polygon: seq<(real, real)>): real {
    if polygon == [] then 0.0 else SumY(polygon[..|polygon| - 1]) + polygon[|polygon| - 1].1
  }

  function Centre(item: Item): (Option<real>, Option<real>) {
    if (item.x.None? || item.y.None?) && |item.polygon| >= 3 then
      (Some(SumX(item.polygon) / |item.polygon| as real), Some(SumY(item.polygon) / |item.polygon| as real))
    else (item.x, item.y)
  }

  function Or<T>(new_: Option<T>, old_: Option<T>): Option<T> {
    if new_.Some? then new_ else old_
  }

  predicate GivesStatus(item: Item) {
    item.status.Some? && ValidStatus(item.status.value)
  }

  /** What the file gives replaces what the row has; what it does not give stays. */
  function Updated(row: Row, item: Item): (r: Row)
    ensures r.code == row.code
  {
    var (cx, cy) := Centre(item);
    Row(row.code, Or(cx, row.cx), Or(cy, row.cy), if GivesStatus(item) then item.status.value else row.status)
  }

  function NewRow(item: Item): Row {
    var (cx, cy) := Centre(item);
    Row(item.code, cx, cy, if GivesStatus(item) then item.status.value else "free")
  }

  /** The first row with a code. */
  function Find(rows: seq<Row>, code: string): (r: Option<nat>)
    ensures r.Some? ==> r.value < |rows| && rows[r.value].code == code
    ensures r.None? ==> forall i :: 0 <= i < |rows| ==> rows[i].code != code
  {
    if rows == [] then None
    else
      var n := |rows| - 1;
      var before := Find(rows[..n], code);
      if before.Some? then before else if rows[n].code == code then Some(n) else None
  }

  /** The rows after the items; only rows that were there before the file are found again. */
  function Upsert(base: seq<Row>, items: seq<Item>): (rows: seq<Row>)
    ensures |rows| >= |base|
  {
    if items == [] then base
    else
      var n := |items| - 1;
      var rows := Upsert(base, items[..n]);
      match Find(base, items[n].code)
      case Some(i) => rows[i := Updated(rows[i], items[n])]
      case None => rows + [NewRow(items[n])]
  }

  function Created(base: seq<Row>, items: seq<Item>): (n: nat)
    ensures n <= |items|
  {
    if items == [] then 0
    else
      var n := |items| - 1;
      Created(base, items[..n]) + if Find(base, items[n].code).None? then 1 else 0
  }

  // ---------- putting edits back ----------

  function EditsOf(rows: seq<Row>): seq<Edit> {
    if rows == [] then []
    else
      var n := |rows| - 1;
      var r := rows[n];
      EditsOf(rows[..n])
      + if r.status == "context" || !Located(r) then [] else [Edit(r.code, r.status, r.cx.value, r.cy.value)]
  }

  /** The edits whose code is not among the file's codes. */
  function Renamed(edits: seq<Edit>, items: seq<Item>): seq<Edit> {
    if edits == [] then []
    else
      var n := |edits| - 1;
      Renamed(edits[..n], items)
      + if exists i :: 0 <= i < |items| && items[i].code == edits[n].code then [] else [edits[n]]
  }

  /** The places of the rows that the query for spots returns. */
  function Queried(rows: seq<Row>): (order: seq<nat>)
    ensures forall n :: 0 <= n < |order| ==> order[n] < |rows|
  {
    if rows == [] then []
    else
      var n := |rows| - 1;
      Queried(rows[..n]) + if rows[n].status != "context" then [n] else []
  }

  function Square(x: real): real {
    x * x
  }

  /** Squared distance between a located row and an old centre. */
  function Distance(r: Row, o: Edit): real
    requires Located(r)
  {
    Square(r.cx.value - o.cx) + Square(r.cy.value - o.cy)
  }

  /** The square of the radius of 0.6. */
  const REACH := 0.36

  predicate Places(order: seq<nat>, n: nat) {
    forall k :: 0 <= k < |order| ==> order[k] < n
  }

  /** The nearest free row within reach among the first n of the query, the later of equals, and its squared distance. */
  function Best(rows: seq<Row>, order: seq<nat>, taken: set<nat>, o: Edit, n: nat): (r: (Option<nat>, real))
    requires Places(order, |rows|) && n <= |order|
    ensures r.0.Some? ==> r.0.value < |rows|
  {
    if n == 0 then (None, REACH)
    else
      var (best, bestD) := Best(rows, order, taken, o, n - 1);
      var i := order[n - 1];
      if i in taken || !Located(rows[i]) || Distance(rows[i], o) > bestD then (best, bestD)
      else (Some(i), Distance(rows[i], o))
  }

  function Nearest(rows: seq<Row>, order: seq<nat>, taken: set<nat>, o: Edit): (r: Option<nat>)
    requires Places(order, |rows|)
    ensures r.Some? ==> r.value < |rows|
  {
    Best(rows, order, taken, o, |order|).0
  }

  function Edited(r: Row, o: Edit): Row {
    r.(code := o.code, status := if ValidStatus(o.status) then o.status else r.status)
  }

  function Restore(rows: seq<Row>, order: seq<nat>, edits: seq<Edit>): (r: (seq<Row>, set<nat>))
    requires Places(order, |rows|)
    ensures |r.0| == |rows|
  {
    if edits == [] then (rows, {})
    else
      var n := |edits| - 1;
      var (now, taken) := Restore(rows, order, edits[..n]);
      match Nearest(now, order, taken, edits[n])
      case None => (now, taken)
      case Some(i) => (now[i := Edited(now[i], edits[n])], taken + {i})
  }

  // ---------- import_from_json ----------

  /** Every commit checks that no two rows share a code; the purge is committed before the file is read. */
  function Import(rows: seq<Row>, items: seq<Item>, purge: bool, keepEdits: bool): (seq<Row>, Outcome) {
    var edits := if purge && keepEdits then EditsOf(rows) else [];
    var base := if purge then [] else rows;
    var upserted := Upsert(base, items);
    if !DistinctCodes(upserted) then (base, Raised)
    else
      var restored := Restore(upserted, Queried(upserted), Renamed(edits, items)).0;
      if !DistinctCodes(restored) then (upserted, Raised)
      else (restored, Done(Created(base, items), |items| - Created(base, items)))
  }

  class CadTable {
    var rows: seq<Row>

    constructor ()
      ensures rows == []
    {
      rows := [];
    }

    method UpsertItems(items: seq<Item>) returns (created: nat, updated: nat)
      modifies this
      ensures rows == Upsert(old(rows), items)
      ensures created == Created(old(rows), items) && updated == |items| - created
    {
      var existing := rows;
      created, updated := 0, 0;
      for i := 0 to |items|
        invariant rows == Upsert(existing, items[..i])
        invariant created == Created(existing, items[..i]) && updated == i - created
      {
        assert items[..i + 1][..i] == items[..i];
        var found := Find(existing, items[i].code);
        if found.Some? {
          rows := rows[found.value := Updated(rows[found.value], items[i])];
          updated := updated + 1;
        } else {
          rows := rows + [NewRow(items[i])];
          created := created + 1;
        }
      }
      assert items[..|items|] == items;
    }

    /** The two nested loops: the nearest free row of the query for each edit in turn. */
    method RestoreEdits(order: seq<nat>, edits: seq<Edit>)
      requires Places(order, |rows|)
      modifies this
      ensures rows == Restore(old(rows), order, edits).0
    {
      var taken: set<nat> := {};
      for k := 0 to |edits|
        invariant (rows, taken) == Restore(old(rows), order, edits[..k])
      {
        assert edits[..k + 1][..k] == edits[..k];
        ghost var now := rows;
        var best, bestD := None, REACH;
        for n := 0 to |order|
          invariant (best, bestD) == Best(rows, order, taken, edits[k], n)
        {
          var r := rows[order[n]];
          if order[n] !in taken && Located(r) {
            var d := Distance(r, edits[k]);
            if d <= bestD { best, bestD := Some(order[n]), d; }
          }
        }
        if best.Some? {
          taken := taken + {best.value};
          rows := rows[best.value := rows[best.value].(code := edits[k].code)];
          if ValidStatus(edits[k].status) {
            rows := rows[best.value := rows[best.value].(status := edits[k].status)];
          }
          assert rows == now[best.value := Edited(now[best.value], edits[k])];
        }
      }
      assert edits[..|edits|] == edits;
    }

    /** What is remembered of the located rows before a purge. */
    method RememberEdits() returns (edits: seq<Edit>)
      ensures edits == EditsOf(rows)
    {
      edits := [];
      for i := 0 to |rows|
        invariant edits == EditsOf(rows[..i])
      {
        assert rows[..i + 1][..i] == rows[..i];
        var r := rows[i];
        if r.status != "context" && Located(r) {
          edits := edits + [Edit(r.code, r.status, r.cx.value, r.cy.value)];
        }
      }
      assert rows[..|rows|] == rows;
    }

    method ImportFromJson(items: seq<Item>, purge: bool, keepEdits: bool) returns (outcome: Outcome)
      modifies this
      ensures (rows, outcome) == Import(old(rows), items, purge, keepEdits)
    {
      hide EditsOf, Upsert, Restore, Renamed, Queried, DistinctCodes;
      var edits := [];
      if purge && keepEdits { edits := RememberEdits(); }
      if purge { rows := []; }
      var committed := rows;
      var created, updated := UpsertItems(items);
      if !DistinctCodes(rows) {
        rows := committed;
        return Raised;
      }
      committed := rows;
      RestoreEdits(Queried(rows), Renamed(edits, items));
      if !DistinctCodes(rows) {
        rows := committed;
        return Raised;
      }
      outcome := Done(created, updated);
    }
  }
}
