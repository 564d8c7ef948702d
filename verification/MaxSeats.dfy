/** From a number of seats to rows (layout-write.service.ts, autoGenerateFromMaxSeats): no seat is lost or invented. */
module MaxSeats {
  import opened Numbers
  import opened Outcomes
  import opened AutoLayout
  import opened LayoutRows
  import Decimal

  // ---------- The plan's geometry in closed form

  /** Table k of the plan is table k % 5 of section k / 5. */
  lemma {:induction false} PlanTables(n: int, s: nat)
    requires s <= SectionCount(n)
    ensures var tables := AllTables(Plan(n), s);
      && |tables| == Min(5 * s, TableCount(n))
      && forall k :: 0 <= k < |tables| ==> PlaceInPlan(n, k) && tables[k] == GeoTableAt(Plan(n)[k / 5], k / 5, k % 5)
  {
    if s > 0 {
      PlanTables(n, s - 1);
      var before, tables := AllTables(Plan(n), s - 1), AllTables(Plan(n), s);
      forall k | |before| <= k < |tables|
        ensures PlaceInPlan(n, k) && tables[k] == GeoTableAt(Plan(n)[k / 5], k / 5, k % 5)
      {
        assert k / 5 == s - 1 && k % 5 == k - 5 * (s - 1);
      }
    }
  }

  predicate PlaceInPlan(n: int, k: nat) {
    k / 5 < SectionCount(n) && k % 5 < |Plan(n)[k / 5].tables|
  }

  function PlannedGeoTable(n: int, k: nat): GeoTable
    requires PlaceInPlan(n, k)
  {
    GeoTableAt(Plan(n)[k / 5], k / 5, k % 5)
  }

  lemma PlanTable(n: int, k: nat)
    requires k < TableCount(n) && PlaceInPlan(n, k)
    ensures var t := PlannedGeoTable(n, k);
      && t.id == TableId(k / 5, k % 5) && t.sectionId == SectionId(k / 5) && t.name == TableName(k)
      && t.capacity == Min(10, n - 10 * k) && t.order == k % 5 + 1
      && Resolves(Plan(n), t) && |SeatsOf(Plan(n), t)| == t.capacity
  {
    var s, t := k / 5, k % 5;
    TableIdRoundTrip(s, t);
    assert 5 * s + t == k;
    assert PlannedSection(n, s).tables[t] == PlannedTable(n, 5 * s + t);
  }

  /** Seat s of table k. */
  lemma PlanSeat(n: int, k: nat, s: nat)
    requires k < TableCount(n) && PlaceInPlan(n, k) && s < Min(10, n - 10 * k)
    ensures var t := PlannedGeoTable(n, k);
      && Resolves(Plan(n), t) && s < |SeatsOf(Plan(n), t)| && (10 * k + s) / 10 == k && (10 * k + s) % 10 == s
      && SeatFits(SeatsOf(Plan(n), t)[s], t, 10 * k + s)
  {
    PlanTable(n, k);
  }

  predicate SeatFits(seat: GeoSeat, table: GeoTable, j: nat) {
    seat.tableId == table.id && seat.number == j % 10 + 1 && seat.status == "AVAILABLE"
  }

  /** Seat j of the plan is seat j % 10 of table j / 10. */
  lemma {:induction false} PlanSeats(n: int, tables: seq<GeoTable>)
    requires |tables| <= TableCount(n)
    requires forall k :: 0 <= k < |tables| ==> PlaceInPlan(n, k) && tables[k] == PlannedGeoTable(n, k)
    ensures forall k :: 0 <= k < |tables| ==> Resolves(Plan(n), tables[k])
    ensures |AllSeats(Plan(n), tables)| == Min(10 * |tables|, Max(n, 0))
    ensures forall j :: 0 <= j < |AllSeats(Plan(n), tables)| ==>
      SeatFits(AllSeats(Plan(n), tables)[j], tables[j / 10], j)
  {
    hide Resolves, SeatsOf, SeatFits, PlannedGeoTable, PlaceInPlan;
    forall k | 0 <= k < |tables| ensures Resolves(Plan(n), tables[k]) { PlanTable(n, k); }
    if tables != [] {
      var m := |tables| - 1;
      var init, last := tables[..m], tables[m];
      PlanSeats(n, init);
      PlanTable(n, m);
      var before, added := AllSeats(Plan(n), init), SeatsOf(Plan(n), last);
      assert |before| == 10 * m;
      forall j | 0 <= j < 10 * m + |added| ensures SeatFits((before + added)[j], tables[j / 10], j) {
        if j >= 10 * m { PlanSeat(n, m, j - 10 * m); }
      }
    }
  }

  // ---------- Its links

  lemma NamesDistinct(n: int)
    ensures forall a: nat, b: nat :: TableName(a) == TableName(b) ==> a == b
    ensures forall a: nat, b: nat :: SectionName(a) == SectionName(b) ==> a == b
    ensures forall a: nat, b: nat :: SectionId(a) == SectionId(b) ==> a == b
    ensures forall i: nat, t: nat, i': nat, t': nat :: TableId(i, t) == TableId(i', t') ==> i == i' && t == t'
  {
    forall a: nat, b: nat | TableName(a) == TableName(b) ensures a == b { Decimal.Injective("Table ", a + 1, b + 1); }
    forall a: nat, b: nat | SectionName(a) == SectionName(b) ensures a == b {
      Decimal.Injective("Section ", a + 1, b + 1);
    }
    forall a: nat, b: nat | SectionId(a) == SectionId(b) ensures a == b { Decimal.Injective("sec_", a, b); }
    forall i: nat, t: nat, i': nat, t': nat | TableId(i, t) == TableId(i', t') ensures i == i' && t == t' {
      TableIdRoundTrip(i, t);
      TableIdRoundTrip(i', t');
    }
  }

  function SectionOfTable(n: int): (links: seq<nat>)
    ensures |links| == TableCount(n) && forall k :: 0 <= k < |links| ==> links[k] == k / 5
  {
    seq(TableCount(n), k requires 0 <= k < TableCount(n) => k / 5)
  }

  function TableOfSeat(n: int): (links: seq<nat>)
    ensures |links| == Max(n, 0) && forall j :: 0 <= j < |links| ==> links[j] == j / 10
  {
    seq(Max(n, 0), j requires 0 <= j < Max(n, 0) => j / 10)
  }

  /** The sections and tables of the plan's geometry. */
  lemma PlanParts(n: int)
    ensures var g := GeometryOf(Plan(n));
      && |g.sections| == SectionCount(n) && |g.tables| == TableCount(n)
      && (forall k :: 0 <= k < |g.sections| ==>
            g.sections[k].id == SectionId(k) && g.sections[k].name == SectionName(k) && g.sections[k].order == k + 1)
      && forall k :: 0 <= k < |g.tables| ==>
           && PlaceInPlan(n, k) && g.tables[k] == PlannedGeoTable(n, k)
           && g.tables[k].id == TableId(k / 5, k % 5) && g.tables[k].sectionId == SectionId(k / 5)
           && g.tables[k].name == TableName(k) && g.tables[k].capacity == Min(10, n - 10 * k)
           && g.tables[k].order == k % 5 + 1
  {
    hide TableName, SectionName, SectionId, TableId, SeatsOf, AllSeats, AllTables, Resolves;
    var g := GeometryOf(Plan(n));
    PlanTables(n, SectionCount(n));
    forall k | 0 <= k < |g.tables|
      ensures g.tables[k].id == TableId(k / 5, k % 5) && g.tables[k].sectionId == SectionId(k / 5)
      ensures g.tables[k].name == TableName(k) && g.tables[k].capacity == Min(10, n - 10 * k)
      ensures g.tables[k].order == k % 5 + 1
    {
      PlanTable(n, k);
    }
  }

  /** The geometry of the plan: as many seats as asked for, each at its table, each table in its section. */
  lemma PlanIsWellLinked(n: int)
    ensures var g := GeometryOf(Plan(n));
      && |g.sections| == SectionCount(n) && |g.tables| == TableCount(n) && |g.seats| == Max(n, 0)
      && WellLinked(g, SectionOfTable(n), TableOfSeat(n))
      && (forall k :: 0 <= k < |g.sections| ==> g.sections[k].name == SectionName(k) && g.sections[k].order == k + 1)
      && (forall k :: 0 <= k < |g.tables| ==>
            && g.tables[k].name == TableName(k) && g.tables[k].capacity == Min(10, n - 10 * k)
            && g.tables[k].order == k % 5 + 1)
      && (forall j :: 0 <= j < |g.seats| ==> g.seats[j].number == j % 10 + 1 && g.seats[j].status == "AVAILABLE")
  {
    hide TableName, SectionName, SectionId, TableId, SeatsOf, AllSeats, AllTables, Resolves, PlaceInPlan,
      PlannedGeoTable;
    PlanParts(n);
    PlanSeatLinks(n);
    PlanLinks(n);
  }

  lemma PlanSeatLinks(n: int)
    ensures var g := GeometryOf(Plan(n));
      && |g.seats| == Max(n, 0) && |g.tables| == TableCount(n)
      && forall j :: 0 <= j < |g.seats| ==>
           && j / 10 < |g.tables| && g.seats[j].tableId == g.tables[j / 10].id && g.seats[j].number == j % 10 + 1
           && g.seats[j].status == "AVAILABLE"
  {
    hide TableName, SectionName, SectionId, TableId, SeatsOf, AllSeats, AllTables, Resolves, PlannedGeoTable,
      PlaceInPlan, Plan;
    var g := GeometryOf(Plan(n));
    PlanParts(n);
    PlanSeats(n, g.tables);
    assert forall j :: 0 <= j < |g.seats| ==> SeatFits(g.seats[j], g.tables[j / 10], j);
  }

  lemma PlanLinks(n: int)
    ensures WellLinked(GeometryOf(Plan(n)), SectionOfTable(n), TableOfSeat(n))
  {
    hide TableName, SectionName, SectionId, TableId, SeatsOf, AllSeats, AllTables, Resolves, PlannedGeoTable,
      PlaceInPlan, Plan, GeometryOf;
    PlanParts(n);
    PlanSeatLinks(n);
    NamesDistinct(n);
  }

  // ---------- The whole operation

  ghost predicate TableSeated(n: int, rows: Rows, k: nat)
    requires k < |rows.tables|
  {
    && rows.tables[k].name == "Table " + Decimal.ToString(k + 1) && rows.tables[k].order == k % 5 + 1
    && rows.tables[k].capacity == (if n - 10 * k < 10 then n - 10 * k else 10)
    && k / 5 < |rows.sections| && rows.tables[k].sectionId == rows.sections[k / 5].id
  }

  ghost predicate SeatSeated(rows: Rows, j: nat)
    requires j < |rows.seats|
  {
    && rows.seats[j].status == "AVAILABLE" && rows.seats[j].number == j % 10 + 1
    && j / 10 < |rows.tables| && rows.seats[j].tableId == rows.tables[j / 10].id
    && rows.seats[j].sectionId == rows.tables[j / 10].sectionId
    && rows.seats[j].caption
       == "Section " + Decimal.ToString(j / 50 + 1) + " • " + "Table " + Decimal.ToString(j / 10 + 1)
          + " • Seat " + Decimal.ToString(j % 10 + 1)
  }

  /**
    Exactly max(n, 0) available seats, ten at every table but the last, five tables in every section but the last;
    the seats, the tables and the sections are linked in order.
   */
  ghost predicate Seated(n: int, rows: Rows) {
    var seats := if n < 0 then 0 else n;
    && |rows.seats| == seats && |rows.tables| == (seats + 9) / 10 && |rows.sections| == ((seats + 9) / 10 + 4) / 5
    && (forall k :: 0 <= k < |rows.sections| ==>
          rows.sections[k].name == "Section " + Decimal.ToString(k + 1) && rows.sections[k].order == k + 1)
    && (forall k :: 0 <= k < |rows.tables| ==> TableSeated(seats, rows, k))
    && (forall j :: 0 <= j < |rows.seats| ==> SeatSeated(rows, j))
    && (forall a, b :: 0 <= a < b < |rows.tables| ==> rows.tables[a].id != rows.tables[b].id)
    && (forall a, b :: 0 <= a < b < |rows.sections| ==> rows.sections[a].id != rows.sections[b].id)
  }

  method AutoGenerateFromMaxSeats(maxSeats: int, next: RowId, list: Listing) returns (r: Option<Rows>)
    ensures r.Some? && Seated(maxSeats, r.value)
  {
    hide GeometryOf, Plan, WriteGeometry, TableName, SectionName, SeatRowOf;
    var configs := BuildSections(maxSeats);
    var geometry := Generate(configs);
    PlanIsWellLinked(maxSeats);
    WriteMirrors(geometry, SectionOfTable(maxSeats), TableOfSeat(maxSeats), next, list);
    r := Write(geometry, next, list);
    MirrorIsSeated(maxSeats, geometry, r.value, next);
  }

  /** The plan's geometry g and its rows. */
  ghost predicate Written(n: int, g: Geometry, rows: Rows, next: RowId) {
    && WellLinked(g, SectionOfTable(n), TableOfSeat(n)) && Mirrors(g, SectionOfTable(n), TableOfSeat(n), rows, next)
    && |g.sections| == SectionCount(n)
    && (forall k :: 0 <= k < |g.sections| ==> g.sections[k].name == SectionName(k) && g.sections[k].order == k + 1)
    && (forall k :: 0 <= k < |g.tables| ==>
          && g.tables[k].name == TableName(k) && g.tables[k].capacity == Min(10, n - 10 * k)
          && g.tables[k].order == k % 5 + 1)
    && (forall j :: 0 <= j < |g.seats| ==> g.seats[j].number == j % 10 + 1 && g.seats[j].status == "AVAILABLE")
  }

  lemma TableMirrored(n: int, g: Geometry, rows: Rows, next: RowId, k: nat)
    requires Written(n, g, rows, next) && k < |rows.tables|
    ensures TableSeated(Max(n, 0), rows, k) && rows.tables[k].id == next + |g.sections| + k
  {
    hide AllDistinct;
    assert SectionOfTable(n)[k] == k / 5;
  }

  lemma SeatMirrored(n: int, g: Geometry, rows: Rows, next: RowId, j: nat)
    requires Written(n, g, rows, next) && j < |rows.seats|
    ensures SeatSeated(rows, j)
  {
    hide AllDistinct, IsSeatRow, TableName, SectionName;
    assert TableOfSeat(n)[j] == j / 10 && SectionOfTable(n)[j / 10] == j / 50;
    SeatRowReads(rows.seats[j], g.seats[j], rows.tables[j / 10], rows.sections[j / 50].name, j);
  }

  lemma SeatRowReads(row: SeatRow, seat: GeoSeat, table: TableRow, sectionName: string, j: nat)
    requires IsSeatRow(row, seat, table, sectionName) && seat.number == j % 10 + 1 && seat.status == "AVAILABLE"
    requires table.name == TableName(j / 10) && sectionName == SectionName(j / 50)
    ensures row.status == "AVAILABLE" && row.number == j % 10 + 1
    ensures row.tableId == table.id && row.sectionId == table.sectionId
    ensures row.caption == "Section " + Decimal.ToString(j / 50 + 1) + " • " + "Table " + Decimal.ToString(j / 10 + 1)
                           + " • Seat " + Decimal.ToString(j % 10 + 1)
  {
  }

  lemma SectionMirrored(n: int, g: Geometry, rows: Rows, next: RowId)
    requires Written(n, g, rows, next)
    ensures |rows.seats| == Max(n, 0) && |rows.tables| == TableCount(n) && |rows.sections| == SectionCount(n)
    ensures forall k :: 0 <= k < |rows.sections| ==>
      && rows.sections[k].name == SectionName(k) && rows.sections[k].id == next + k
      && rows.sections[k].order == k + 1
  {
    hide TableName, SectionName, SeatRowOf, AllDistinct;
  }

  lemma MirrorIsSeated(n: int, g: Geometry, rows: Rows, next: RowId)
    requires Written(n, g, rows, next)
    ensures Seated(n, rows)
  {
    hide Written, TableSeated, SeatSeated;
    SectionMirrored(n, g, rows, next);
    forall k | 0 <= k < |rows.tables| { TableMirrored(n, g, rows, next, k); }
    forall j | 0 <= j < |rows.seats| { SeatMirrored(n, g, rows, next, j); }
  }

  lemma AtTable(n: int, rows: Rows, j: nat, k: nat)
    requires Seated(n, rows) && j < |rows.seats| && k < |rows.tables|
    ensures rows.seats[j].tableId == rows.tables[k].id <==> j / 10 == k
    ensures rows.tables[k].capacity == Min(10, Max(n, 0) - 10 * k)
  {
    assert SeatSeated(rows, j) && TableSeated(Max(n, 0), rows, k);
  }

  ghost function SeatsAt(rows: Rows, k: nat, m: nat): set<int>
    requires k < |rows.tables| && m <= |rows.seats|
  {
    set j | 0 <= j < m && rows.seats[j].tableId == rows.tables[k].id
  }

  /** Counting by table: every table has as many seats as its capacity says. */
  lemma {:induction false} SeatsAtTable(n: int, rows: Rows, k: nat, m: nat)
    requires Seated(n, rows) && k < |rows.tables| && m <= |rows.seats|
    ensures |SeatsAt(rows, k, m)| == if m <= 10 * k then 0 else Min(m - 10 * k, rows.tables[k].capacity)
  {
    hide Seated;
    if m == 0 {
      assert SeatsAt(rows, k, 0) == {};
    } else {
      SeatsAtTable(n, rows, k, m - 1);
      AtTable(n, rows, m - 1, k);
      OneMoreSeat(rows, k, m - 1);
      SeatTotal(n, rows);
    }
  }

  lemma OneMoreSeat(rows: Rows, k: nat, m: nat)
    requires k < |rows.tables| && m < |rows.seats|
    ensures |SeatsAt(rows, k, m + 1)|
         == |SeatsAt(rows, k, m)| + if rows.seats[m].tableId == rows.tables[k].id then 1 else 0
  {
    assert SeatsAt(rows, k, m + 1)
        == SeatsAt(rows, k, m) + if rows.seats[m].tableId == rows.tables[k].id then {m} else {};
  }

  lemma SeatTotal(n: int, rows: Rows)
    requires Seated(n, rows)
    ensures |rows.seats| == Max(n, 0)
  {
  }
}
