/**
  What the geometry engine must generate, part by part (geometry-engine.ts): which section, table and seat stands
  where in its lists, under which id, and with which name, number and links.
 */
module EngineOutcomes {
  import opened Numbers
  import opened Outcomes
  import opened AutoLayout
  import Decimal
  import Splitting

  /** How many tables the sections before the i-th have. */
  function TablesBefore(configs: seq<SectionConfig>, i: nat): nat
    requires i <= |configs|
  {
    if i == 0 then 0 else TablesBefore(configs, i - 1) + |configs[i - 1].tables|
  }

  /** How many seats the tables before the k-th have. */
  function SeatsBefore(tables: seq<GeoTable>, k: nat): nat
    requires k <= |tables|
  {
    if k == 0 then 0 else SeatsBefore(tables, k - 1) + tables[k - 1].capacity
  }

  /** Table t of section i: its ids, its own name or one made from the section's, its order and its seats. */
  predicate IsTable(configs: seq<SectionConfig>, i: nat, t: nat, table: GeoTable)
    requires i < |configs| && t < |configs[i].tables|
  {
    var config := configs[i].tables[t];
    && table.id == "tbl_" + Decimal.ToString(i) + "_" + Decimal.ToString(t)
    && table.sectionId == "sec_" + Decimal.ToString(i)
    && table.name == (if config.name.Some? then config.name.value else configs[i].name + "-T" + Decimal.ToString(t + 1))
    && table.order == t + 1 && table.capacity == config.seats.count
  }

  /** Seat s of that table. */
  predicate IsSeat(configs: seq<SectionConfig>, i: nat, t: nat, s: nat, seat: GeoSeat)
    requires i < |configs| && t < |configs[i].tables| && s < configs[i].tables[t].seats.count
  {
    && seat.id == "seat_" + Decimal.ToString(i) + "_" + Decimal.ToString(t) + "_" + Decimal.ToString(s)
    && seat.tableId == "tbl_" + Decimal.ToString(i) + "_" + Decimal.ToString(t)
    && seat.number == s + 1 && seat.status == "AVAILABLE"
    && seat.place == SeatPlaces(configs[i].tables[t].seats.shape, configs[i].tables[t].seats.count)[s]
  }

  ghost predicate Generates(configs: seq<SectionConfig>, g: Geometry) {
    && |g.sections| == |configs| && |g.tables| == TablesBefore(configs, |configs|)
    && |g.seats| == SeatsBefore(g.tables, |g.tables|)
    && (forall i :: 0 <= i < |configs| ==>
          g.sections[i] == GeoSection("sec_" + Decimal.ToString(i), configs[i].name, i + 1))
    && (forall i, t :: 0 <= i < |configs| && 0 <= t < |configs[i].tables| ==> TableStands(configs, g, i, t))
    && (forall i, t, s ::
          0 <= i < |configs| && 0 <= t < |configs[i].tables| && 0 <= s < configs[i].tables[t].seats.count ==>
          SeatStands(configs, g, i, t, s))
  }

  predicate TableStands(configs: seq<SectionConfig>, g: Geometry, i: nat, t: nat)
    requires i < |configs| && t < |configs[i].tables|
  {
    var k := TablesBefore(configs, i) + t;
    k < |g.tables| && IsTable(configs, i, t, g.tables[k])
  }

  predicate SeatStands(configs: seq<SectionConfig>, g: Geometry, i: nat, t: nat, s: nat)
    requires i < |configs| && t < |configs[i].tables| && s < configs[i].tables[t].seats.count
  {
    var k := TablesBefore(configs, i) + t;
    && k < |g.tables| && SeatsBefore(g.tables, k) + s < |g.seats|
    && IsSeat(configs, i, t, s, g.seats[SeatsBefore(g.tables, k) + s])
  }

  lemma {:induction false} TableAt(configs: seq<SectionConfig>, n: nat, i: nat, t: nat)
    requires i < n <= |configs| && t < |configs[i].tables|
    ensures TablesBefore(configs, i) + t < |AllTables(configs, n)| == TablesBefore(configs, n)
    ensures AllTables(configs, n)[TablesBefore(configs, i) + t] == GeoTableAt(configs[i], i, t)
  {
    TableTotal(configs, n - 1);
    if i < n - 1 { TableAt(configs, n - 1, i, t); }
  }

  lemma {:induction false} TableTotal(configs: seq<SectionConfig>, n: nat)
    requires n <= |configs|
    ensures |AllTables(configs, n)| == TablesBefore(configs, n)
  {
    if n > 0 { TableTotal(configs, n - 1); }
  }

  lemma {:induction false} SeatAt(configs: seq<SectionConfig>, tables: seq<GeoTable>, k: nat, s: nat)
    requires forall j :: 0 <= j < |tables| ==> Resolves(configs, tables[j])
    requires forall j :: 0 <= j < |tables| ==> |SeatsOf(configs, tables[j])| == tables[j].capacity
    requires k < |tables| && s < tables[k].capacity
    ensures SeatsBefore(tables, k) + s < |AllSeats(configs, tables)| == SeatsBefore(tables, |tables|)
    ensures AllSeats(configs, tables)[SeatsBefore(tables, k) + s] == SeatsOf(configs, tables[k])[s]
  {
    hide Resolves, SeatsOf;
    var init := tables[..|tables| - 1];
    SeatTotal(configs, init);
    SamePrefix(tables, init, |init|);
    SamePrefix(tables, init, Min(k, |init|));
    if k < |init| { SeatAt(configs, init, k, s); }
  }

  lemma {:induction false} SamePrefix(tables: seq<GeoTable>, init: seq<GeoTable>, k: nat)
    requires init <= tables && k <= |init|
    ensures SeatsBefore(tables, k) == SeatsBefore(init, k)
  {
    if k > 0 { SamePrefix(tables, init, k - 1); }
  }

  lemma {:induction false} SeatTotal(configs: seq<SectionConfig>, tables: seq<GeoTable>)
    requires forall j :: 0 <= j < |tables| ==> Resolves(configs, tables[j])
    requires forall j :: 0 <= j < |tables| ==> |SeatsOf(configs, tables[j])| == tables[j].capacity
    ensures |AllSeats(configs, tables)| == SeatsBefore(tables, |tables|)
  {
    hide Resolves, SeatsOf;
    if tables != [] {
      var init := tables[..|tables| - 1];
      SeatTotal(configs, init);
      SamePrefix(tables, init, |init|);
    }
  }

  /** The seats of the table made for a place in the configurations. */
  lemma SeatsOfPlace(configs: seq<SectionConfig>, i: nat, t: nat)
    requires i < |configs| && t < |configs[i].tables|
    ensures var table := GeoTableAt(configs[i], i, t);
      && Resolves(configs, table) && |SeatsOf(configs, table)| == table.capacity == configs[i].tables[t].seats.count
      && forall s :: 0 <= s < table.capacity ==> IsSeat(configs, i, t, s, SeatsOf(configs, table)[s])
  {
    TableIdRoundTrip(i, t);
    hide ReadableTableId, SeatPlaces, Decimal.ToString, ParseTableId;
    var table := GeoTableAt(configs[i], i, t);
    assert table.id == TableId(i, t) && ParseTableId(table.id) == (i, t);
  }

  lemma {:induction false} TablesFit(configs: seq<SectionConfig>, n: nat)
    requires n <= |configs|
    ensures forall j :: 0 <= j < |AllTables(configs, n)| ==>
      var table := AllTables(configs, n)[j]; Resolves(configs, table) && |SeatsOf(configs, table)| == table.capacity
  {
    hide Resolves, SeatsOf, GeoTableAt;
    if n > 0 {
      TablesFit(configs, n - 1);
      var added := TablesOf(configs[n - 1], n - 1);
      forall t | 0 <= t < |added|
        ensures Resolves(configs, added[t]) && |SeatsOf(configs, added[t])| == added[t].capacity
      {
        SeatsOfPlace(configs, n - 1, t);
      }
    }
  }

  /** The engine generates exactly what is configured, whatever the configuration. */
  lemma EngineGenerates(configs: seq<SectionConfig>)
    ensures Generates(configs, GeometryOf(configs))
  {
    hide Resolves, SeatsOf, GeoTableAt, AllTables, AllSeats, IsTable, IsSeat, SeatsBefore, TablesBefore;
    var g, n := GeometryOf(configs), |configs|;
    TablesResolve(configs, n);
    TablesFit(configs, n);
    TableTotal(configs, n);
    SeatTotal(configs, g.tables);
    forall i, t | 0 <= i < n && 0 <= t < |configs[i].tables| ensures TableStands(configs, g, i, t) {
      TableAt(configs, n, i, t);
      TableIs(configs, i, t);
    }
    forall i, t, s | 0 <= i < n && 0 <= t < |configs[i].tables| && 0 <= s < configs[i].tables[t].seats.count
      ensures SeatStands(configs, g, i, t, s)
    {
      TableAt(configs, n, i, t);
      SeatsOfPlace(configs, i, t);
      SeatAt(configs, g.tables, TablesBefore(configs, i) + t, s);
    }
  }

  lemma TableIs(configs: seq<SectionConfig>, i: nat, t: nat)
    requires i < |configs| && t < |configs[i].tables|
    ensures IsTable(configs, i, t, GeoTableAt(configs[i], i, t))
  {
  }
}
